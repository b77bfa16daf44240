/**
 A disc with Rock Ridge serial numbers, from its descriptors to its root directory, on which the
 server takes inode numbers from the image; and what two sets of files on it lead to.
 */
module Disc {
  import opened Base
  import opened Strings
  import opened Susp
  import opened SuspRoundTrip
  import opened Record
  import opened Identifier
  import opened RockRidge
  import opened DirectoryEntry
  import opened BlockDevice
  import opened Continuation
  import opened Walk
  import opened Directory
  import opened Packing
  import opened Printed
  import opened Lookup
  import opened ServerState
  import opened Protocol
  import opened Chains
  import opened Rebinding
  import opened Mounting
  import opened Descriptors
  import Volume
  import Server

  const NO_TIME: Stamp := [0, 0, 0, 0, 0, 0, 0]

  /** The name `A` */
  const NAME: Text := [65]

  /** The root directory record of the primary descriptor: one block, after the descriptors */
  const ROOT_RECORD: Raw := Raw(0, 18, 2048, NO_TIME, 2, 1, [0], [])

  /** The root directory */
  const TOP: Node := Directory(Header(34, 0, 18, 2048, NO_TIME, 2, 1, Iso9660), [46],
                               Meta(None, None, None, None, [], false))

  // ---- its entries ----

  /** Rock Ridge is registered, and the directory has serial number 2. */
  const DOT_USE: seq<Written> := [
    References([REFERENCE]),
    Written.Plain(Attributes(0x41ED, 2, 0, 0, Some(2)))]

  /** The entry of the root directory for itself */
  const DOT_RECORD: Raw := Raw(0, 18, 2048, NO_TIME, 2, 1, [0], PrintAll(PrintEntry, DOT_USE))

  const DOT_NODE: Node := Directory(Header(96, 0, 18, 2048, NO_TIME, 2, 1, Iso9660), [46],
                                    Meta(None, None, Some(0x41ED), Some(2), [RockRidge109], false))

  /** The attributes of a regular file with a serial number */
  function Serial(n: u32): Written {
    Written.Plain(Attributes(0x81A4, 1, 0, 0, Some(n)))
  }

  /** A file called `A`; with flag 4 it is an associated file */
  function FileRecord(location: u32, flags: byte, serial: u32): Raw {
    Raw(0, location, 5, NO_TIME, flags, 1, NAME, PrintEntry(Serial(serial)))
  }

  function FileNode(location: u32, flags: byte, serial: u32): Node {
    File(Header(78, 0, location, 5, NO_TIME, flags, 1, Iso9660), NAME,
         Meta(None, None, Some(0x81A4), Some(serial), [], false), 1)
  }

  lemma SerialFits(n: u32)
    ensures WellFormed(Serial(n)) && |PrintEntry(Serial(n))| == 44
  {
  }

  lemma NameDecodes()
    ensures DecodeIdentifier(Iso9660, NAME) == Ok(NAME) && SplitVersion(NAME) == Ok((NAME, 1))
  {
    AsciiIsValid(NAME);
    NothingToTrim(NAME);
  }

  lemma FileBuilt(location: u32, flags: byte, serial: u32, es: seq<Entry>)
    requires flags in {0, 4} && es == [EntryOf(Serial(serial))]
    ensures var node := FileNode(location, flags, serial);
            BuildNode(node.header, NAME, es) == Ok(node) && Areas(es) == []
  {
    hide DecodeIdentifier, SplitVersion;
    var node := FileNode(location, flags, serial);
    OnlyAttributes(es);
    assert LinkTarget(es) == Ok(None) && AltName(es) == None;
    assert MetaOf(es, None) == node.meta && !IsSymlinkMode(node.meta);
    NameDecodes();
  }

  lemma FileFits(location: u32, flags: byte, serial: u32)
    requires flags in {0, 4}
    ensures var r := FileRecord(location, flags, serial);
            && Carries(r, [Serial(serial)], 0) && r.Length() == 78
            && r.HeaderIn(Iso9660) == FileNode(location, flags, serial).header
  {
    hide PrintEntry, WellFormed;
    var ws := [Serial(serial)];
    SerialFits(serial);
    assert ws[1..] == [] && PrintAll(PrintEntry, ws) == PrintEntry(ws[0]);
    assert PrintAll(PrintEntry, ws) + Zeros(0) == PrintEntry(ws[0]);
  }

  /** The file record stands for the file, and takes no reads of its own. */
  lemma FileMeans(image: seq<byte>, location: u32, flags: byte, serial: u32)
    requires flags in {0, 4}
    ensures var r := FileRecord(location, flags, serial);
            && r.Valid() && RawMeaning(image, Iso9660, r) == Some(FileNode(location, flags, serial))
            && RecordCost(image, Iso9660, r) == Finite(0)
  {
    hide PrintEntry, WellFormed, BuildNode, Areas, DecodeIdentifier, RawMeaning, RecordCost, Steps, Collected;
    hide Others, Inline;
    var r, ws := FileRecord(location, flags, serial), [Serial(serial)];
    FileFits(location, flags, serial);
    NameDecodes();
    FileBuilt(location, flags, serial, EntriesOf(ws));
    PrintedRecordMeaning(image, Iso9660, r, NAME, ws, 0);
    NothingToFollow(image, EntriesOf(ws));
  }

  /** Rock Ridge, as its first version spells it */
  const REFERENCE := Reference(RRIP_1991A, [], [])

  lemma ReferenceRegistered()
    ensures Registered(REFERENCE) == Some(RockRidge109)
  {
    hide ValidUtf8, TrimEnd;
    AsciiIsValid(RRIP_1991A);
    AsciiIsValid([]);
    NothingToTrim(RRIP_1991A);
  }

  lemma ReferenceFits()
    ensures WellFormed(DOT_USE[0]) && |PrintEntry(DOT_USE[0])| == 18
    ensures EntryOf(DOT_USE[0]) == Extensions([RockRidge109])
  {
    hide Registered;
    ReferenceRegistered();
    var rs := [REFERENCE];
    assert rs[1..] == [] && |PrintReference(REFERENCE)| == 14;
    assert PrintAll(PrintReference, rs) == PrintReference(REFERENCE) + [];
    assert Map(ExtensionOf, rs) == [RockRidge109];
  }

  lemma DotFits()
    ensures Carries(DOT_RECORD, DOT_USE, 0) && DOT_RECORD.Length() == 96
  {
    hide PrintEntry, Registered, PrintAll;
    ReferenceFits();
    PairPrinted();
    assert WellFormed(DOT_USE[1]) && |PrintEntry(DOT_USE[1])| == 44 by { DotAttributesFit(); }
    assert PrintAll(PrintEntry, DOT_USE) + Zeros(0) == PrintAll(PrintEntry, DOT_USE);
  }

  lemma DotAttributesFit()
    ensures WellFormed(DOT_USE[1]) && |PrintEntry(DOT_USE[1])| == 44
  {
  }

  lemma PairPrinted()
    ensures PrintAll(PrintEntry, DOT_USE) == PrintEntry(DOT_USE[0]) + PrintEntry(DOT_USE[1])
  {
    hide PrintEntry;
    assert DOT_USE[1..] == [DOT_USE[1]] && DOT_USE[1..][1..] == [];
    assert PrintAll(PrintEntry, DOT_USE[1..]) == PrintEntry(DOT_USE[1]);
  }

  /** What there is to find in a list of attributes alone */
  lemma OnlyAttributes(es: seq<Entry>)
    requires |es| == 1 && es[0].Attributes?
    ensures Links(es) == [] && Names(es) == [] && Areas(es) == [] && FirstChild(es) == None
    ensures FirstAttributes(es) == Some(es[0]) && FirstExtensions(es) == [] && Relocated !in es
  {
    assert es[1..] == [];
  }

  lemma DotBuilt(es: seq<Entry>)
    requires es == EntriesOf(DOT_USE)
    ensures BuildNode(DOT_NODE.header, [0], es) == Ok(DOT_NODE) && Areas(es) == []
  {
    hide PrintEntry, Registered;
    ReferenceFits();
    assert es[0] == Extensions([RockRidge109]) && es[1].Attributes? && es[1..] == [es[1]];
    OnlyAttributes(es[1..]);
    assert Links(es) == [] && Names(es) == [];
    assert LinkTarget(es) == Ok(None) && AltName(es) == None && FirstChild(es) == None;
    assert FirstAttributes(es) == Some(es[1]) && FirstExtensions(es) == [RockRidge109] && Relocated !in es;
    assert MetaOf(es, None) == DOT_NODE.meta;
  }

  lemma DotHeader()
    requires DOT_RECORD.Valid() && DOT_RECORD.Length() == 96
    ensures DOT_RECORD.HeaderIn(Iso9660) == DOT_NODE.header && DecodeIdentifier(Iso9660, DOT_RECORD.id) == Ok([0])
  {
    hide PrintAll;
  }

  lemma DotMeans(image: seq<byte>)
    ensures DOT_RECORD.Valid() && RawMeaning(image, Iso9660, DOT_RECORD) == Some(DOT_NODE)
    ensures RecordCost(image, Iso9660, DOT_RECORD) == Finite(0)
  {
    hide PrintEntry, PrintAll, WellFormed, EntriesOf, BuildNode, Areas, RawMeaning, RecordCost, Steps, Collected;
    hide Others, Inline;
    DotFits();
    DotBuilt(EntriesOf(DOT_USE));
    DotHeader();
    PrintedRecordMeaning(image, Iso9660, DOT_RECORD, [0], DOT_USE, 0);
    NothingToFollow(image, EntriesOf(DOT_USE));
  }

  // ---- the disc ----

  /** The records of the root directory */
  function Records(files: seq<Raw>): seq<Raw> {
    [DOT_RECORD] + files
  }

  ghost predicate Fitting(files: seq<Raw>) {
    FitsBlock(Records(files))
  }

  function PrintTop(files: seq<Raw>): (s: seq<byte>)
    requires Fitting(files)
    ensures |s| == BLOCK
  {
    PrintBlock(Records(files))
  }

  /** System area, primary descriptor, terminator, and the root directory with these files */
  function Image(files: seq<Raw>): (image: seq<byte>)
    requires Fitting(files)
    ensures |image| == 19 * BLOCK
  {
    Zeros(16 * BLOCK) + PrintDescriptor(1, Iso9660, ROOT_RECORD) + PrintTerminator() + PrintTop(files)
  }

  lemma BlocksOfImage(files: seq<Raw>)
    requires Fitting(files)
    ensures BlockAt(Image(files), 16) == Some(PrintDescriptor(1, Iso9660, ROOT_RECORD))
    ensures BlockAt(Image(files), 17) == Some(PrintTerminator())
    ensures BlockAt(Image(files), 18) == Some(PrintTop(files))
  {
    hide PrintDescriptor, PrintTerminator, PrintTop;
    var image := Image(files);
    assert image[16 * BLOCK..17 * BLOCK] == PrintDescriptor(1, Iso9660, ROOT_RECORD);
    assert image[17 * BLOCK..18 * BLOCK] == PrintTerminator();
    assert image[18 * BLOCK..19 * BLOCK] == PrintTop(files);
  }

  const TABLE := Volume.Table(2048, TOP.header, [0])

  lemma RootRecordFits()
    ensures ROOT_RECORD.Valid() && DecodeIdentifier(Iso9660, ROOT_RECORD.id) == Ok([0])
    ensures !ParseSystemUse(ROOT_RECORD.use).Panicked? && ROOT_RECORD.HeaderIn(Iso9660) == TOP.header
  {
    hide ParseSystemUse, Many1;
    SystemUseTiles([]);
    assert DecodeIdentifier(Iso9660, [0]) == Ok([0]);
  }

  lemma DescriptorsHeld(files: seq<Raw>)
    requires Fitting(files)
    ensures HoldsTable(Image(files), 16, 1, Iso9660, 2048, ROOT_RECORD) && HoldsTerminator(Image(files), 17)
  {
    hide Image, BlockAt, PrintDescriptor, IsMastered, ParseSystemUse, DecodeIdentifier;
    BlocksOfImage(files);
    RootRecordFits();
    PrintedIsMastered(1, Iso9660, ROOT_RECORD);
  }

  /** The volume opens with that root directory, in two reads. */
  lemma ImageOpens(files: seq<Raw>)
    requires Fitting(files)
    ensures Volume.Scan(Image(files), 16, None, None) == Ok(Volume.Volume(TABLE, None))
    ensures Volume.ScanCost(Image(files), 16) == 2
  {
    hide Image, BlockAt, HoldsTable, HoldsTerminator, Volume.Scan, Volume.DescriptorAt, DecodeIdentifier;
    hide ParseSystemUse;
    var image := Image(files);
    DescriptorsHeld(files);
    RootRecordFits();
    MasteredVolumeOpens(image, 2048, ROOT_RECORD, [0], Iso9660, 2048, ROOT_RECORD, [0]);
    TableHeld(image, 16, 1, Iso9660, 2048, ROOT_RECORD, [0]);
    TerminatorHeld(image, 17);
    Volume.DescriptorsReadOnce(image, 16, 17);
  }

  lemma TopIsPacked(files: seq<Raw>)
    requires Fitting(files)
    ensures Packed(Image(files), TOP.header, [Records(files)])
  {
    hide Image, BlockAt, FitsBlock, PrintBlock;
    BlocksOfImage(files);
  }

  /** What the root directory holds at the start of a record that takes no reads of its own */
  lemma AtRecord(files: seq<Raw>, j: nat, node: Node, cached: Option<nat>)
    requires Fitting(files) && j < |Records(files)| && forall r :: r in Records(files) ==> r.Valid()
    requires RawMeaning(Image(files), Iso9660, Records(files)[j]) == Some(node)
    requires RecordCost(Image(files), Iso9660, Records(files)[j]) == Finite(0)
    ensures var at, image := Start(Records(files), j), Image(files);
            var next := if j + 1 < |Records(files)| then Some(Start(Records(files), j + 1)) else None;
            && EntryAt(image, TOP.header, at) == Some(Item(node, next))
            && NextCost(image, TOP.header, Cursor(cached, Some(at))) == Finite(if cached == Some(0) then 0 else 1)
            && NextCursor(image, TOP.header, Cursor(cached, Some(at))) == Cursor(Some(0), next)
  {
    hide Image, RawMeaning, RecordCost, EntryAt, NextCost, NextCursor, Packed, Start, FitsBlock, Records;
    TopIsPacked(files);
    InOneBlock(Image(files), TOP.header, Records(files), j, node, cached);
  }

  /** The first record is that of the directory itself. */
  lemma AtDot(files: seq<Raw>)
    requires Fitting(files) && files != [] && forall r :: r in Records(files) ==> r.Valid()
    ensures EntryAt(Image(files), TOP.header, 0) == Some(Item(DOT_NODE, Some(96)))
    ensures NextCost(Image(files), TOP.header, START) == Finite(1)
    ensures NextCursor(Image(files), TOP.header, START) == Cursor(Some(0), Some(96))
    ensures Start(Records(files), 1) == 96
  {
    hide Image, RawMeaning, RecordCost, EntryAt, NextCost, NextCursor, FitsBlock, PrintAll, PrintRecord;
    DotMeans(Image(files));
    DotFits();
    AtRecord(files, 0, DOT_NODE, None);
  }

  /** The server on such a disc takes inode numbers from the image; setting it up takes five reads. */
  lemma DiscTakesNumbers(files: seq<Raw>)
    requires Fitting(files) && files != [] && forall r :: r in Records(files) ==> r.Valid()
    ensures var v := Volume.Volume(TABLE, None);
            && Volume.Scan(Image(files), 16, None, None) == Ok(v)
            && Root(Image(files), v) == TOP && !Generates(Image(files), v)
            && FirstEntry(Image(files), TOP.header) == Some(DOT_NODE)
    ensures MountCost(Image(files)) == Finite(5) && !EntryPanics(Image(files), TOP.header, 0)
  {
    hide Image, EntryAt, EntryPanics, NextCost, NextCursor, FitsBlock, PrintAll, Volume.Scan, Volume.ScanCost;
    ImageOpens(files);
    AtDot(files);
    EntryHasBlock(Image(files), TOP.header, 0);
    assert RootOf(TABLE) == TOP;
  }

  // ---- a file with the root's number ----

  /** A file with serial number 1 */
  const FILE: Node := FileNode(1, 0, 1)

  const FILES: seq<Raw> := [FileRecord(1, 0, 1)]

  lemma FilesFit()
    ensures Fitting(FILES) && forall r :: r in Records(FILES) ==> r.Valid()
  {
    hide PrintRecord, PrintEntry, PrintAll;
    DotFits();
    FileFits(1, 0, 1);
    var rs := Records(FILES);
    assert rs[1..] == FILES && FILES[1..] == [];
    assert |PrintRecords(FILES)| == 78 && |PrintRecords(rs)| == 174;
  }

  /** The root directory holds its own entry and the file, in one block. */
  lemma FilesHeld()
    requires Fitting(FILES)
    ensures var image, dir := Image(FILES), TOP.header;
            && EntryAt(image, dir, 0) == Some(Item(DOT_NODE, Some(96)))
            && EntryAt(image, dir, 96) == Some(Item(FILE, None))
            && NextCost(image, dir, START) == Finite(1)
            && NextCursor(image, dir, START) == Cursor(Some(0), Some(96))
            && NextCost(image, dir, Cursor(Some(0), Some(96))) == Finite(0)
            && NextCursor(image, dir, Cursor(Some(0), Some(96))) == Cursor(Some(0), None)
  {
    hide Image, EntryAt, NextCost, NextCursor, FitsBlock, PrintAll, PrintEntry, Start, RawMeaning, RecordCost;
    FilesFit();
    AtDot(FILES);
    FileMeans(Image(FILES), 1, 0, 1);
    AtRecord(FILES, 1, FILE, Some(0));
  }

  lemma FileMatches()
    ensures !Matches(DOT_NODE, NAME) && Matches(FILE, NAME)
  {
    assert Lower(DOT_NODE.name)[0] == 46 && Lower(NAME)[0] == 97;
  }

  lemma FileIsPicked()
    requires Fitting(FILES)
    ensures Find(Image(FILES), TOP.header, NAME) == Found(FILE)
  {
    hide Image, EntryAt, NextCost, NextCursor, FitsBlock, Matches;
    var image, dir := Image(FILES), TOP.header;
    FilesHeld();
    FileMatches();
    EntriesAdvance(image, dir);
    var step, limit := Entries(image, dir), Limit(dir);
    assert step(0) == Some(Item(DOT_NODE, Some(96))) && step(96) == Some(Item(FILE, None));
    TwoEntries(step, limit, 0);
    var items := Listing(step, limit, 0);
    assert items == [Item(DOT_NODE, Some(96)), Item(FILE, None)];
    PickSecond(items, NAME);
  }

  /** Looking the file up takes one read and finds it. */
  lemma FileIsFound()
    requires Fitting(FILES)
    ensures Find(Image(FILES), TOP.header, NAME) == Found(FILE)
    ensures FindCost(Image(FILES), TOP.header, NAME) == Finite(1)
  {
    hide Image, EntryAt, NextCost, NextCursor, FitsBlock, Matches, Find, FindCostFrom;
    var image, dir := Image(FILES), TOP.header;
    FilesHeld();
    FileMatches();
    FileIsPicked();
    SearchGoesOn(image, dir, START, NAME, Item(DOT_NODE, Some(96)));
    SearchGoesOn(image, dir, Cursor(Some(0), Some(96)), NAME, Item(FILE, None));
  }

  lemma PickSecond(items: seq<Item>, name: Text)
    requires |items| == 2 && !Matches(items[0].node, name) && Matches(items[1].node, name)
    ensures Pick(items, true, name) == Found(items[1].node)
  {
    hide Matches;
    assert items[1..][0] == items[1];
    assert Pick(items[1..], true, name) == Found(items[1].node);
  }

  lemma TwoEntries(step: Stepper, limit: nat, at: nat)
    requires Advances(step, limit) && step(at).Some? && step(at).value.next.Some?
    requires step(step(at).value.next.value).Some? && step(step(at).value.next.value).value.next.None?
    ensures var item := step(at).value;
            Listing(step, limit, at) == [item, step(item.next.value).value] && Complete(step, limit, at)
  {
    assert AdvancesAt(step, limit, at);
  }

  /** On a device with such a disc the server comes up, takes inode numbers from the image, and has read five times. */
  method MountDisc(files: seq<Raw>, script: seq<Outcome>) returns (server: Server.Server)
    requires Fitting(files) && files != [] && forall r :: r in Records(files) ==> r.Valid()
    requires AllFull(script, 0, 5)
    ensures fresh(server) && fresh(server.dev) && server.Valid() && server.openFiles == map[]
    ensures server.dev.image == Image(files) && server.dev.script == script && server.dev.served <= 5
    ensures !server.generates && server.Abs() == FirstState(TOP)
  {
    hide Image, FirstEntry, EntryPanics, Volume.Scan, MountCost, Generates, Fitting;
    DiscTakesNumbers(files);
    var dev := new Device(Image(files), script);
    var mounted := Mount(dev);
    return mounted.value;
  }

  /** Looking the file up binds it to the root's number, and to nothing else. */
  lemma RootIsRebound(w: World, reply: Reply, s': State)
    requires Fitting(FILES) && w.image == Image(FILES) && !w.generates && w.quiet
    requires LooksUp(w, FirstState(TOP), ROOT, NAME, reply, s')
    ensures reply == Entry(ROOT, FILE) && s'.inodes == map[ROOT := FILE] && Rebinds(FirstState(TOP), s')
  {
    hide Image, Find, ValidUtf8;
    FileIsFound();
    AsciiIsValid(NAME);
    assert ROOT in FirstState(TOP).inodes && ROOT in s'.inodes;
  }

  /**
   * On a device with that disc and a script of six reads without faults, or more: the server comes up
   * with inode numbers from the image, and looking up the only file makes the root's number mean it.
   */
  method RebindRoot(script: seq<Outcome>) returns (server: Server.Server, reply: Reply)
    requires AllFull(script, 0, 6)
    ensures Fitting(FILES) && server.dev.image == Image(FILES) && server.dev.script == script
    ensures !server.generates && server.dev.served <= 6
    ensures reply == Entry(ROOT, FILE) && server.inodes == map[ROOT := FILE]
    ensures Rebinds(FirstState(TOP), server.Abs())
  {
    hide Image, Find, FindCost, ValidUtf8, LooksUp, Rebinds, Fitting, RequestCost, AllFull;
    FilesFit();
    AllFullWithin(script, 0, 0, 5, 6);
    server := MountDisc(FILES, script);
    ghost var before := server.dev.served;
    LookupCost();
    reply := server.Lookup(ROOT, NAME);
    AllFullWithin(script, 0, before, server.dev.served, 6);
    RootIsRebound(server.WorldSince(before), reply, server.Abs());
  }

  lemma LookupCost()
    requires Fitting(FILES)
    ensures RequestCost(Image(FILES), false, FirstState(TOP), LookupName(ROOT, NAME)) == Finite(1)
  {
    hide Image, FindCost, ValidUtf8;
    FileIsFound();
    AsciiIsValid(NAME);
  }

  /** Looking the file up on a freshly started server can be paid for with one read. */
  lemma LookupIsAffordable(w: World)
    requires Fitting(FILES) && w.image == Image(FILES) && !w.generates
    ensures Affordable(w, FirstState(TOP), [LookupName(ROOT, NAME)], 1)
  {
    hide Image, RequestCost, FirstState, Replies;
    var requests := [LookupName(ROOT, NAME)];
    LookupCost();
    forall states, replies, k: nat | k < 1 && IsRun(w.(quiet := true), states, requests[..k], replies)
                                     && states[0] == FirstState(TOP) && NoPanic(replies)
      ensures var cost := RunCost(w, states, requests, k + 1); cost.Finite? && cost.value <= 1
    {
      assert RunCost(w, states, requests, 0) == Finite(0);
    }
  }

  // ---- an associated file with the number of its main file ----

  const MAIN: Node := FileNode(1, 0, 7)

  const ASSOCIATED: Node := FileNode(2, 4, 7)

  const PAIR: seq<Raw> := [FileRecord(1, 0, 7), FileRecord(2, 4, 7)]

  lemma PairFits()
    ensures Fitting(PAIR) && forall r :: r in Records(PAIR) ==> r.Valid()
    ensures Start(Records(PAIR), 1) == 96 && Start(Records(PAIR), 2) == 174
  {
    hide PrintRecord, PrintEntry, PrintAll;
    DotFits();
    FileFits(1, 0, 7);
    FileFits(2, 4, 7);
    var rs := Records(PAIR);
    assert rs[1..] == PAIR && PAIR[1..] == [PAIR[1]] && PAIR[1..][1..] == [];
    assert |PrintRecords(PAIR[1..])| == 78;
    assert PrintRecords(PAIR) == PrintRecord(PAIR[0]) + PrintRecords(PAIR[1..]);
    assert |PrintRecords(PAIR)| == 156 && |PrintRecords(rs)| == 252;
  }

  /** The two files can be bound: each by a listing that starts at its record. */
  lemma PairIsListed(w: World)
    requires Fitting(PAIR) && w.image == Image(PAIR)
    ensures ListedAt(w, TOP, 96, MAIN) && ListedAt(w, TOP, 174, ASSOCIATED)
  {
    hide Image, EntryAt, EntryCost, NextCost, FitsBlock, PrintAll, PrintEntry, Start, EntryFails, EntryPanics;
    hide RawMeaning, RecordCost, Listing, StopsCalmly, CachedAfter, IsDots;
    var image, dir := Image(PAIR), TOP.header;
    PairFits();
    FileMeans(image, 1, 0, 7);
    FileMeans(image, 2, 4, 7);
    AtRecord(PAIR, 1, MAIN, None);
    AtRecord(PAIR, 2, ASSOCIATED, None);
    EntriesAdvance(image, dir);
    NoDots();
    FirstIsListed(w, TOP, 96, Item(MAIN, Some(174)));
    FirstIsListed(w, TOP, 174, Item(ASSOCIATED, None));
  }

  lemma NoDots()
    ensures !IsDots(MAIN) && !IsDots(ASSOCIATED)
  {
  }

  /** An entry at an offset, with the end or an entry with a number after it */
  lemma FirstIsListed(w: World, p: Node, at: nat, item: Item)
    requires EntryAt(w.image, p.header, at) == Some(item) && at < 0x8000_0000_0000_0000
    requires !item.node.meta.relocated && !IsDots(item.node)
    requires item.next.Some? ==>
               var next := EntryAt(w.image, p.header, item.next.value);
               next.Some? && !next.value.node.meta.relocated && next.value.node.meta.inode.Some?
    ensures ListedAt(w, p, at, item.node)
  {
    hide EntryAt, EntryFails, NextCost, CachedAfter, IsDots, Limit;
    var dir := p.header;
    EntriesAdvance(w.image, dir);
    var step, limit := Entries(w.image, dir), Limit(dir);
    assert AdvancesAt(step, limit, at) && step(at) == Some(item);
    var items := ListedAfter(w.image, dir, at);
    assert items[0] == item && items[..1] == [item];
    CursorPast(w.image, dir, None, at, 1);
    assert ListedTo(w, p, at, 1, item.node);
  }

  /**
   * A file and its associated file, with one serial number as they belong together: `find` passes
   * over the second, but listings bind both, so some run of requests rebinds the number.
   */
  lemma AssociatedFileRebinds(w: World)
    requires Fitting(PAIR) && w.image == Image(PAIR) && !w.generates
    ensures exists states, requests, replies :: IsUse(w, TOP, states, requests, replies) && SomeStepRebinds(states)
  {
    hide Image, ListedAt, IsUse, SomeStepRebinds;
    PairIsListed(w);
    var p, q := [TOP, MAIN], [TOP, ASSOCIATED];
    assert Chains.Child(w, TOP, MAIN) && Chains.Child(w, TOP, ASSOCIATED);
    assert Chain(w, TOP, p) && Chain(w, TOP, q) && NumberOn(p) == NumberOn(q);
    assert Last(p) == MAIN && Last(q) == ASSOCIATED;
    RebindsIff(w, TOP);
  }
}
