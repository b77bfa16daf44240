/**
 A disc with a primary and a Joliet root directory that both hold one file: what a server on it serves,
 under which name it finds the file, and what it reads from it.
 */
module TwoRoots {
  import opened Base
  import opened Strings
  import opened Unicode
  import opened Susp
  import opened Record
  import opened Identifier
  import opened BlockDevice
  import opened DirectoryEntry
  import opened Directory
  import opened Walk
  import opened Packing
  import opened Paths
  import opened RecordMeaning
  import opened Lookup
  import opened Files
  import opened ServerState
  import opened Protocol
  import opened Mounting
  import opened Descriptors
  import opened Joliet
  import Volume
  import Server

  const NO_TIME: Stamp := [0, 0, 0, 0, 0, 0, 0]

  const NOTHING := Meta(None, None, None, None, [], false)

  /** The record of a root directory of one block for itself, in its descriptor and in the directory */
  function RootRecord(lba: u32): Raw {
    Raw(0, lba, 2048, NO_TIME, 2, 1, [0], [])
  }

  function RootHeader(lba: u32, enc: Encoding): Header {
    Header(34, 0, lba, 2048, NO_TIME, 2, 1, enc)
  }

  /** `A.;1` in the primary directory */
  const SHORT: seq<byte> := [65, 46, 59, 49]

  /** `a b` in UCS-2 */
  const LONG: seq<byte> := [0, 97, 0, 32, 0, 98]

  /** The file has five bytes in block 21. */
  function FileRecord(id: seq<byte>): Raw {
    Raw(0, 21, 5, NO_TIME, 0, 1, id, [])
  }

  function Records(lba: u32, id: seq<byte>): seq<Raw> {
    [RootRecord(lba), FileRecord(id)]
  }

  lemma RecordsFit(lba: u32, id: seq<byte>)
    requires id in {SHORT, LONG}
    ensures FitsBlock(Records(lba, id)) && RootRecord(lba).Valid() && FileRecord(id).Valid()
    ensures Start(Records(lba, id), 0) == 0 && Start(Records(lba, id), 1) == 34
  {
    hide PrintRecord;
    var rs := Records(lba, id);
    assert rs[1..] == [FileRecord(id)] && rs[1..][1..] == [];
    assert PrintRecords(rs[1..]) == PrintRecord(FileRecord(id)) + [];
  }

  /** The bytes of the file: "hello" */
  const HELLO: seq<byte> := [104, 101, 108, 108, 111]

  /** System area, two descriptors, terminator, two directories, and the file */
  function Image(): (image: seq<byte>)
    ensures |image| == 22 * BLOCK
  {
    RecordsFit(19, SHORT);
    RecordsFit(20, LONG);
    Zeros(16 * BLOCK) + PrintDescriptor(1, Iso9660, RootRecord(19)) + PrintDescriptor(2, Ucs2, RootRecord(20))
    + PrintTerminator() + PrintBlock(Records(19, SHORT)) + PrintBlock(Records(20, LONG)) + (HELLO + Zeros(2043))
  }

  lemma BlocksOfImage()
    ensures RootRecord(19).Valid() && RootRecord(20).Valid()
    ensures FitsBlock(Records(19, SHORT)) && FitsBlock(Records(20, LONG))
    ensures BlockAt(Image(), 16) == Some(PrintDescriptor(1, Iso9660, RootRecord(19)))
    ensures BlockAt(Image(), 17) == Some(PrintDescriptor(2, Ucs2, RootRecord(20)))
    ensures BlockAt(Image(), 18) == Some(PrintTerminator())
    ensures BlockAt(Image(), 19) == Some(PrintBlock(Records(19, SHORT)))
    ensures BlockAt(Image(), 20) == Some(PrintBlock(Records(20, LONG)))
    ensures Image()[21 * BLOCK..21 * BLOCK + 5] == HELLO
  {
    hide PrintDescriptor, PrintTerminator, PrintBlock, FitsBlock, Records, RootRecord;
    RecordsFit(19, SHORT);
    RecordsFit(20, LONG);
    var image := Image();
    assert image[16 * BLOCK..17 * BLOCK] == PrintDescriptor(1, Iso9660, RootRecord(19));
    assert image[17 * BLOCK..18 * BLOCK] == PrintDescriptor(2, Ucs2, RootRecord(20));
    assert image[18 * BLOCK..19 * BLOCK] == PrintTerminator();
    assert image[19 * BLOCK..20 * BLOCK] == PrintBlock(Records(19, SHORT));
    assert image[20 * BLOCK..21 * BLOCK] == PrintBlock(Records(20, LONG));
  }

  lemma RootsPacked()
    ensures Packed(Image(), RootHeader(19, Iso9660), [Records(19, SHORT)])
    ensures Packed(Image(), RootHeader(20, Ucs2), [Records(20, LONG)])
  {
    hide Image, BlockAt, FitsBlock, PrintBlock, Records;
    BlocksOfImage();
  }

  function TableOf(lba: u32, enc: Encoding): Volume.Table {
    Volume.Table(2048, RootHeader(lba, enc), [0])
  }

  lemma DescriptorsHeld()
    ensures HoldsTable(Image(), 16, 1, Iso9660, 2048, RootRecord(19))
    ensures HoldsTable(Image(), 17, 2, Ucs2, 2048, RootRecord(20))
    ensures HoldsTerminator(Image(), 18)
  {
    hide Image, BlockAt, PrintDescriptor, PrintTerminator, IsMastered, ParseSystemUse, IsStandard;
    BlocksOfImage();
    SystemUseTiles([]);
    PrintedIsMastered(1, Iso9660, RootRecord(19));
    PrintedIsMastered(2, Ucs2, RootRecord(20));
    TerminatorPrinted();
  }

  lemma RootHeaders(lba: u32, enc: Encoding)
    ensures RootRecord(lba).Valid() && RootRecord(lba).HeaderIn(enc) == RootHeader(lba, enc)
    ensures DecodeIdentifier(enc, RootRecord(lba).id) == Ok([0])
  {
  }

  /** Both descriptors are found, in three reads. */
  lemma VolumeOpens()
    ensures Volume.Scan(Image(), 16, None, None) ==
              Ok(Volume.Volume(TableOf(19, Iso9660), Some(TableOf(20, Ucs2))))
    ensures Volume.ScanCost(Image(), 16) == 3
  {
    hide Image, HoldsTable, HoldsTerminator, Volume.Scan, Volume.DescriptorAt, RootRecord, RootHeader, DecodeIdentifier;
    DescriptorsHeld();
    RootHeaders(19, Iso9660);
    RootHeaders(20, Ucs2);
    MasteredVolumeOpens(Image(), 2048, RootRecord(19), [0], Ucs2, 2048, RootRecord(20), [0]);
    TableHeld(Image(), 16, 1, Iso9660, 2048, RootRecord(19), [0]);
    TableHeld(Image(), 17, 2, Ucs2, 2048, RootRecord(20), [0]);
    TerminatorHeld(Image(), 18);
    Volume.DescriptorsReadOnce(Image(), 16, 18);
  }

  lemma TerminatorPrinted()
    ensures IsStandard(PrintTerminator()) && PrintTerminator()[0] == 255
  {
  }

  // ---- what the records stand for ----

  function RootNode(lba: u32, enc: Encoding): Node {
    Directory(RootHeader(lba, enc), [46], NOTHING)
  }

  /** The file, under the name that a root directory has for it */
  function FileNode(length: byte, name: Text, enc: Encoding): Node {
    File(Header(length, 0, 21, 5, NO_TIME, 0, 1, enc), name, NOTHING, 1)
  }

  /** The file as the primary directory has it, and as the Joliet directory has it */
  const SHORT_FILE := FileNode(38, [65], Iso9660)

  const LONG_FILE := FileNode(40, [97, 32, 98], Ucs2)

  lemma RootMeans(image: seq<byte>, lba: u32, enc: Encoding)
    ensures var r := RootRecord(lba);
            && r.Valid() && RawMeaning(image, enc, r) == Some(RootNode(lba, enc))
            && RecordCost(image, enc, r) == Finite(0)
  {
    hide RawMeaning, RecordCost;
    PlainRecord(image, enc, RootRecord(lba), [0], [], [], 1);
  }

  lemma NamesDecode()
    ensures DecodeIdentifier(Iso9660, SHORT) == Ok(SHORT) && DecodeIdentifier(Ucs2, LONG) == Ok([97, 32, 98])
  {
    hide FromUtf16, ValidUtf8, TrimEnd;
    AsciiIsValid(SHORT);
    NothingToTrim(SHORT);
    NothingToTrim([97, 32, 98]);
    LongDecodes();
    assert LONG[..2][0] == 0 && LONG[..3][0] == 0;
  }

  lemma NamesHaveVersions()
    ensures HasVersion(SHORT, [65, 46], 1) && IsStem([65], [65, 46])
    ensures HasVersion([97, 32, 98], [97, 32, 98], 1) && IsStem([97, 32, 98], [97, 32, 98])
  {
    assert Decimal(1) == [49] && SHORT == [65, 46] + [59] + [49];
    assert [65, 46] == [65] + [46];
  }

  lemma LongDecodes()
    ensures FromUtf16(LONG, true) == Some([97, 32, 98])
  {
    hide FromUtf16;
    FromUtf16First(97, [0, 32, 0, 98], true);
    FromUtf16First(32, [0, 98], true);
    FromUtf16First(98, [], true);
    assert Utf16Of(98, true) + [] == [0, 98] && Utf16Of(32, true) + [0, 98] == [0, 32, 0, 98];
    assert Utf16Of(97, true) + [0, 32, 0, 98] == LONG;
    assert Utf8Of(98) + [] == [98] && Utf8Of(32) + [98] == [32, 98] && Utf8Of(97) + [32, 98] == [97, 32, 98];
    EmptyDecodes();
  }

  lemma EmptyDecodes()
    ensures FromUtf16([], true) == Some([])
  {
  }

  lemma FixedParts(id: seq<byte>, enc: Encoding)
    requires |id| == 4 || |id| == 6
    ensures FileRecord(id).Valid()
    ensures FixedPart(FileRecord(id), enc) == Header((34 + |id|) as byte, 0, 21, 5, NO_TIME, 0, 1, enc)
  {
    assert FileRecord(id).Length() == 34 + |id|;
  }

  lemma FilesMean(image: seq<byte>)
    ensures FileRecord(SHORT).Valid() && FileRecord(LONG).Valid()
    ensures RawMeaning(image, Iso9660, FileRecord(SHORT)) == Some(SHORT_FILE)
    ensures RawMeaning(image, Ucs2, FileRecord(LONG)) == Some(LONG_FILE)
    ensures RecordCost(image, Iso9660, FileRecord(SHORT)) == Finite(0) == RecordCost(image, Ucs2, FileRecord(LONG))
  {
    hide RawMeaning, RecordCost, DecodeIdentifier, HasVersion, IsStem, FixedPart;
    NamesDecode();
    NamesHaveVersions();
    FixedParts(SHORT, Iso9660);
    FixedParts(LONG, Ucs2);
    PlainRecord(image, Iso9660, FileRecord(SHORT), SHORT, [65, 46], [65], 1);
    PlainRecord(image, Ucs2, FileRecord(LONG), [97, 32, 98], [97, 32, 98], [97, 32, 98], 1);
  }

  /** What a root directory holds, and what it takes to read that */
  ghost predicate Holds(dir: Header, root: Node, file: Node) {
    && EntryAt(Image(), dir, 0) == Some(Item(root, Some(34))) && EntryAt(Image(), dir, 34) == Some(Item(file, None))
    && NextCost(Image(), dir, START) == Finite(1)
    && NextCursor(Image(), dir, START) == Cursor(Some(0), Some(34))
    && NextCost(Image(), dir, Cursor(Some(0), Some(34))) == Finite(0)
  }

  lemma RootsHold()
    ensures Holds(RootHeader(19, Iso9660), RootNode(19, Iso9660), SHORT_FILE)
    ensures Holds(RootHeader(20, Ucs2), RootNode(20, Ucs2), LONG_FILE)
  {
    hide Image, EntryAt, NextCost, NextCursor, Packed, RawMeaning, RecordCost, Start, FitsBlock;
    var image := Image();
    RootsPacked();
    RecordsFit(19, SHORT);
    RecordsFit(20, LONG);
    RootMeans(image, 19, Iso9660);
    RootMeans(image, 20, Ucs2);
    FilesMean(image);
    InOneBlock(image, RootHeader(19, Iso9660), Records(19, SHORT), 0, RootNode(19, Iso9660), None);
    InOneBlock(image, RootHeader(19, Iso9660), Records(19, SHORT), 1, SHORT_FILE, Some(0));
    InOneBlock(image, RootHeader(20, Ucs2), Records(20, LONG), 0, RootNode(20, Ucs2), None);
    InOneBlock(image, RootHeader(20, Ucs2), Records(20, LONG), 1, LONG_FILE, Some(0));
  }

  /** Setting up a server takes six reads. */
  lemma MountTakesSix()
    ensures MountCost(Image()) == Finite(6)
    ensures !EntryPanics(Image(), RootHeader(19, Iso9660), 0) && EntryAt(Image(), RootHeader(20, Ucs2), 0).Some?
  {
    hide Image, EntryAt, EntryPanics, NextCost, NextCursor, Packed, Volume.Scan, Volume.ScanCost, Root, Generates;
    hide RootHeader, Records;
    VolumeOpens();
    RootsHold();
    RootChosen();
    EntryHasBlock(Image(), RootHeader(19, Iso9660), 0);
  }

  lemma RootChosen()
    ensures var v := Volume.Volume(TableOf(19, Iso9660), Some(TableOf(20, Ucs2)));
            Root(Image(), v) == RootNode(20, Ucs2) && Generates(Image(), v)
  {
    hide Image, Root, Generates, Packed, AllWritten;
    RootsPacked();
    RecordsFit(19, SHORT);
    SupplementaryIsRoot(Image(), Volume.Volume(TableOf(19, Iso9660), Some(TableOf(20, Ucs2))), [Records(19, SHORT)],
                        [], 0, map[], 0);
  }

  /** The name that the Joliet directory has for the file finds it, in capitals, too; the short one finds nothing. */
  lemma LongNameIsFound()
    ensures Find(Image(), RootHeader(20, Ucs2), [65, 32, 66]) == Found(LONG_FILE)
    ensures FindCost(Image(), RootHeader(20, Ucs2), [65, 32, 66]) == Finite(1)
    ensures Find(Image(), RootHeader(20, Ucs2), [65]) == Missing
  {
    hide Image, EntryAt, NextCost, NextCursor, Matches, FindCostFrom, RootHeader;
    var image, dir := Image(), RootHeader(20, Ucs2);
    RootsHold();
    NamesMatch();
    EntriesAdvance(image, dir);
    var step, limit := Entries(image, dir), Limit(dir);
    var dot, file := Item(RootNode(20, Ucs2), Some(34)), Item(LONG_FILE, None);
    assert step(0) == Some(dot) && step(34) == Some(file);
    TwoListed(step, limit, dot, file);
    SearchGoesOn(image, dir, START, [65, 32, 66], dot);
    SearchGoesOn(image, dir, Cursor(Some(0), Some(34)), [65, 32, 66], file);
    PickOfTwo([dot, file], [65, 32, 66]);
    PickOfTwo([dot, file], [65]);
  }

  lemma NamesMatch()
    ensures !Matches(RootNode(20, Ucs2), [65, 32, 66]) && Matches(LONG_FILE, [65, 32, 66])
    ensures !Matches(RootNode(20, Ucs2), [65]) && !Matches(LONG_FILE, [65])
  {
    SameUpToCase([46], [65, 32, 66]);
    SameUpToCase([97, 32, 98], [65, 32, 66]);
    SameUpToCase([46], [65]);
    SameUpToCase([97, 32, 98], [65]);
    assert !SameLetter([46][0], [65][0]);
  }

  lemma TwoListed(step: Stepper, limit: nat, a: Item, b: Item)
    requires Advances(step, limit) && step(0) == Some(a) && a.next == Some(34) && step(34) == Some(b) && b.next == None
    ensures Listing(step, limit, 0) == [a, b] && Complete(step, limit, 0)
  {
    assert AdvancesAt(step, limit, 0);
    assert Listing(step, limit, 34) == [b];
  }

  lemma PickOfTwo(items: seq<Item>, name: Text)
    requires |items| == 2 && !Matches(items[0].node, name)
    ensures Pick(items, true, name) == if Matches(items[1].node, name) then Found(items[1].node) else Missing
  {
    hide Matches;
    assert items[1..][0] == items[1] && items[1..][1..] == [];
    assert Pick(items[1..], true, name) == if Matches(items[1].node, name) then Found(items[1].node) else Missing;
  }

  /** The tables after the file was looked up, and after it was opened */
  const LOOKED_UP := State(map[1 := RootNode(20, Ucs2), 2 := LONG_FILE], 3, map[], 0, map[], 0)

  const OPENED := LOOKED_UP.(files := map[0 := Extent(21, 5)], fileNumber := 1)

  /** A name that is found, without faults and with generated numbers, is entered under the next one. */
  lemma FoundIsEntered(w: World, s: State, parent: nat, name: Text, node: Node, reply: Reply, s': State)
    requires w.generates && w.quiet && LooksUp(w, s, parent, name, reply, s')
    requires parent in s.inodes && s.inodes[parent].Directory? && s.inodeNumber != U64_MAX && ValidUtf8(name)
    requires Find(w.image, s.inodes[parent].header, name) == Found(node)
    ensures reply == Entry(s.inodeNumber, node)
    ensures s' == s.(inodes := s.inodes[s.inodeNumber := node], inodeNumber := s.inodeNumber + 1)
  {
    hide Find, ValidUtf8, EndsInPanic;
  }

  lemma LookupFinds(w: World, reply: Reply, s': State)
    requires w.image == Image() && w.generates && w.quiet
    requires LooksUp(w, FirstState(RootNode(20, Ucs2)), 1, [65, 32, 66], reply, s')
    ensures reply == Entry(2, LONG_FILE) && s' == LOOKED_UP
  {
    hide Image, Find, ValidUtf8, LooksUp, RootHeader, FileNode;
    LongNameIsFound();
    AsciiIsValid([65, 32, 66]);
    FoundIsEntered(w, FirstState(RootNode(20, Ucs2)), 1, [65, 32, 66], LONG_FILE, reply, s');
    assert map[1 := RootNode(20, Ucs2)][2 := LONG_FILE] == map[1 := RootNode(20, Ucs2), 2 := LONG_FILE];
  }

  lemma OpenSucceeds(reply: Reply, s': State)
    requires Opens(LOOKED_UP, 2, reply, s')
    ensures reply == Opened(0) && s' == OPENED
  {
    assert map[][0 := Extent(21, 5)] == map[0 := Extent(21, 5)];
  }

  lemma ReadGives(w: World, reply: Reply)
    requires w.image == Image() && w.trusty && w.quiet && Reads(w, OPENED, 0, 1, 10, reply)
    ensures reply == Data([101, 108, 108, 111])
  {
    hide Image;
    BlocksOfImage();
    var hello := Image()[21 * BLOCK..21 * BLOCK + 5];
    assert forall k :: 0 <= k < 5 ==> Image()[21 * BLOCK + k] == hello[k];
    assert |reply.bytes| == 4;
    assert forall k :: 0 <= k < 4 ==> reply.bytes[k] == Image()[21 * BLOCK + 1 + k] == hello[1 + k];
  }

  lemma LookupTakes(image: seq<byte>, generates: bool, s: State, parent: nat, name: Text)
    requires parent in s.inodes && s.inodes[parent].Directory? && s.inodeNumber != U64_MAX && ValidUtf8(name)
    ensures RequestCost(image, generates, s, LookupName(parent, name)) == FindCost(image, s.inodes[parent].header, name)
  {
    hide FindCost, ValidUtf8, ListCost, BlocksRead;
  }

  /** Looking the file up takes one read, and so does reading it. */
  lemma LookupCost()
    ensures RequestCost(Image(), true, FirstState(RootNode(20, Ucs2)), LookupName(1, [65, 32, 66])) == Finite(1)
  {
    hide Image, Find, FindCost, ValidUtf8, RootHeader, RequestCost, FileNode;
    var image, s := Image(), FirstState(RootNode(20, Ucs2));
    LongNameIsFound();
    AsciiIsValid([65, 32, 66]);
    assert s.inodes[1].header == RootHeader(20, Ucs2) && s.inodeNumber == 2;
    LookupTakes(image, true, s, 1, [65, 32, 66]);
  }

  lemma ReadCosts()
    ensures RequestCost(Image(), true, OPENED, ReadFile(0, 1, 10)) == Finite(1)
  {
    hide Image, FindCost, ValidUtf8, RootHeader, ListCost;
  }

  /** With six reads without faults to come, the server comes up with the Joliet root and generated numbers. */
  method MountTwoRoots(script: seq<Outcome>) returns (server: Server.Server)
    requires AllFull(script, 0, 6)
    ensures fresh(server) && fresh(server.dev) && server.Valid() && server.openFiles == map[]
    ensures server.dev.image == Image() && server.dev.script == script && server.dev.served <= 6
    ensures server.generates && server.Abs() == FirstState(RootNode(20, Ucs2))
  {
    hide Image, Volume.Scan, Packed, MountCost, EntryAt, EntryPanics, WithoutReference, Records, RootHeader, AllFull;
    hide FirstState;
    VolumeOpens();
    MountTakesSix();
    RootsPacked();
    FirstIsPlain();
    var dev := new Device(Image(), script);
    ghost var v := Volume.Volume(TableOf(19, Iso9660), Some(TableOf(20, Ucs2)));
    var mounted := MountWithoutReference(dev, v, [Records(19, SHORT)], [], 0, map[], 0);
    server := mounted.value;
  }

  lemma FirstIsPlain()
    ensures Records(19, SHORT) != []
    ensures WithoutReference(Image(), Records(19, SHORT)[0], [], 0, map[], 0)
  {
    hide IsWritten, AllWritten;
    RecordsFit(19, SHORT);
  }

  /**
   * On that disc, with eight reads without faults to come, the server comes up with the Joliet directory
   * as root and generated numbers; it finds the file by its long name in capitals, opens it, and reads its bytes
   * from the second one on.
   */
  method ReadByLongName(script: seq<Outcome>) returns (server: Server.Server, found: Reply, handle: Reply, read: Reply)
    requires AllFull(script, 0, 8) && Trusty(script)
    ensures server.dev.image == Image() && server.dev.script == script && server.generates
    ensures found == Entry(2, LONG_FILE) && handle == Opened(0) && read == Data([101, 108, 108, 111])
    ensures server.inodes == map[1 := RootNode(20, Ucs2), 2 := LONG_FILE]
  {
    hide Image, LooksUp, Opens, Reads, AllFull, RequestCost, Trusty, FirstState;
    AllFullWithin(script, 0, 0, 6, 8);
    server := MountTwoRoots(script);
    ghost var before := server.dev.served;
    LookupCost();
    ReadCosts();
    found := server.Lookup(1, [65, 32, 66]);
    AllFullWithin(script, 0, before, server.dev.served, 8);
    LookupFinds(server.WorldSince(before), found, server.Abs());
    handle := server.Open(2);
    OpenSucceeds(handle, server.Abs());
    before := server.dev.served;
    read := server.Read(0, 1, 10);
    AllFullWithin(script, 0, before, server.dev.served, 8);
    ReadGives(server.WorldSince(before), read);
  }

  /** The same file under a path: `//A B/` */
  const PATH: Text := [47, 47, 65, 32, 66, 47]

  lemma PathFindsFile()
    ensures Resolve(Image(), RootNode(20, Ucs2), Segments(PATH)) == Found(LONG_FILE)
    ensures ResolveCost(Image(), RootNode(20, Ucs2), Segments(PATH)) == Finite(1)
  {
    hide Image, Find, FindCost, Segments, RootHeader;
    LongNameIsFound();
    assert !HasSlash([65, 32, 66]);
    SegmentsAreNames([65, 32, 66]);
    SlashesDoNotCount([65, 32, 66], []);
    SlashesDoNotCount([65, 32, 66, 47], []);
    SlashesDoNotCount([47, 65, 32, 66, 47], []);
    assert [65, 32, 66] + [47] == [65, 32, 66, 47] && [47] + [65, 32, 66, 47] == [47, 65, 32, 66, 47];
    assert [47] + [47, 65, 32, 66, 47] == PATH && [[65, 32, 66]][1..] == [];
  }

  /** Looking the path up takes one read. */
  method OpenPath(script: seq<Outcome>) returns (dev: Device, found: Result<Option<Node>>)
    requires AllFull(script, 0, 1)
    ensures dev.image == Image() && dev.script == script && dev.served == 1
    ensures found == Ok(Some(LONG_FILE))
  {
    hide Image, Resolve, ResolveCost, Segments;
    PathFindsFile();
    dev := new Device(Image(), script);
    found := FindRecursive(dev, RootNode(20, Ucs2), PATH);
  }
}
