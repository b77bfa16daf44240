/**
 What a printed record stands for, told by its flags, its identifier and the entries written for it:
 which kind of entry it is, and every field of that.
 */
module RecordMeaning {
  import opened Base
  import opened Strings
  import opened Susp
  import opened SuspRoundTrip
  import opened Record
  import opened Identifier
  import opened RockRidge
  import opened DirectoryEntry
  import opened BlockDevice
  import opened Continuation
  import opened Nesting
  import opened Packing
  import opened Printed
  import opened Paths
  import opened LinkPaths

  // ---- what is written ----

  /** The first entry of a kind */
  function FirstOf(es: seq<Entry>, kind: Entry -> bool): (first: Option<Entry>)
    ensures first.None? ==> forall k :: 0 <= k < |es| ==> !kind(es[k])
    ensures first.Some? ==>
              exists k :: 0 <= k < |es| && es[k] == first.value && kind(es[k])
                && forall j :: 0 <= j < k ==> !kind(es[j])
  {
    if es == [] then None
    else if kind(es[0]) then
      assert es[0] == es[0] && kind(es[0]);
      Some(es[0])
    else
      var rest := FirstOf(es[1..], kind);
      assert rest.Some? ==>
        var k :| 0 <= k < |es[1..]| && es[1..][k] == rest.value && kind(es[1..][k])
                 && forall j :: 0 <= j < k ==> !kind(es[1..][j]);
        es[k + 1] == rest.value && forall j :: 0 <= j < k + 1 ==> !kind(es[j]);
      rest
  }

  predicate IsPX(e: Entry) { e.Attributes? }

  predicate IsER(e: Entry) { e.Extensions? }

  predicate IsCL(e: Entry) { e.Child? }

  /**
   * Among these entries the `NM` entries up to the first whose flag bit 0, CONTINUE, is not set spell a
   * name in these pieces.
   */
  ghost predicate CarryName(es: seq<Entry>, pieces: seq<Text>) {
    if es == [] then pieces == []
    else if !es[0].Name? then CarryName(es[1..], pieces)
    else
      && pieces != [] && es[0].name == pieces[0]
      && if es[0].nameFlags % 2 == 1 then CarryName(es[1..], pieces[1..]) else |pieces| == 1
  }

  /** `name` with a semicolon and a number after it, or without any semicolon and then version 1 */
  predicate HasVersion(full: Text, name: Text, version: u16) {
    || full == name + [59] + Decimal(version)
    || (full == name && version == 1 && forall k :: 0 <= k < |full| ==> full[k] != 59)
  }

  /** The name less one dot at its end, if there is one */
  predicate IsStem(stem: Text, name: Text) {
    name == stem + [46] || (name == stem && (name == [] || name[|name| - 1] != 46))
  }

  /** The names of a directory's entries for itself and for its parent are the bytes 0 and 1. */
  function DirectoryName(name: Text): Text {
    if name == [0] then [46] else if name == [1] then [46, 46] else name
  }

  /** A directory of one block at a place of its own: flag bit 1 is set */
  function Elsewhere(h: Header, lba: u32): Header {
    h.(flags := if h.flags / 2 % 2 == 1 then h.flags else h.flags + 2, location := lba, size := 2048)
  }

  // ---- the parts of an entry ----

  lemma {:induction false} FirstsFound(es: seq<Entry>)
    ensures FirstAttributes(es) == FirstOf(es, IsPX)
    ensures FirstExtensions(es) == (var er := FirstOf(es, IsER); if er.Some? then er.value.extensions else [])
    ensures FirstChild(es) == (var cl := FirstOf(es, IsCL); if cl.Some? then Some(cl.value.lba) else None)
  {
    if es != [] {
      FirstsFound(es[1..]);
    }
  }

  lemma {:induction false} NameCarried(es: seq<Entry>, pieces: seq<Text>)
    requires CarryName(es, pieces)
    ensures JoinNames(ContinuedNames(Names(es))) == Flatten(pieces)
    ensures Names(es) == [] <==> pieces == []
  {
    if es != [] {
      var ns := Names(es);
      if !es[0].Name? {
        NameCarried(es[1..], pieces);
        assert ns == Names(es[1..]);
      } else {
        assert ns[0] == es[0] && ns[1..] == Names(es[1..]);
        var cs := ContinuedNames(ns);
        if es[0].nameFlags % 2 == 1 {
          NameCarried(es[1..], pieces[1..]);
          assert Bit(es[0].nameFlags as int, 1);
          assert cs[0] == es[0] && cs[1..] == ContinuedNames(ns[1..]);
        } else {
          assert cs == [es[0]] && cs[1..] == [] && pieces[1..] == [];
        }
      }
    }
  }

  lemma NameIsCarried(es: seq<Entry>, pieces: seq<Text>)
    requires CarryName(es, pieces)
    ensures AltName(es) == if pieces == [] then None else Some(Flatten(pieces))
  {
    NameCarried(es, pieces);
  }

  lemma {:induction false} NoSemicolon(full: Text)
    requires forall k :: 0 <= k < |full| ==> full[k] != 59
    ensures LastIndex(full, SEMICOLON) == None
  {
  }

  lemma StemFound(stem: Text, name: Text)
    requires IsStem(stem, name)
    ensures DropDot(name) == stem
  {
    if name == stem + [46] {
      assert name[..|name| - 1] == stem;
    }
  }

  lemma VersionTaken(full: Text, name: Text, stem: Text, version: u16)
    requires HasVersion(full, name, version) && IsStem(stem, name)
    ensures SplitVersion(full) == Ok((stem, version))
  {
    hide DropDot, Decimal, LastIndex;
    StemFound(stem, name);
    if full == name + [59] + Decimal(version) {
      VersionRoundTrip(name, version);
    } else {
      NoSemicolon(full);
    }
  }

  // ---- the entry built from a list of entries ----

  /** The facts about a file that are not in its record's fixed part */
  ghost function MetaFrom(es: seq<Entry>, name: Option<Text>, target: Option<Text>): Meta {
    var px, er := FirstOf(es, IsPX), FirstOf(es, IsER);
    Meta(name, target, if px.Some? then Some(px.value.mode) else None, if px.Some? then px.value.inode else None,
         if er.Some? then er.value.extensions else [], exists k :: 0 <= k < |es| && es[k].Relocated?)
  }

  /** A symbolic link, by the mode of the first `PX` entry: bits 13 and 15 */
  predicate HasLinkMode(es: seq<Entry>) {
    var px := FirstOf(es, IsPX);
    px.Some? && px.value.mode / 0x2000 % 2 == 1 && px.value.mode / 0x8000 % 2 == 1
  }

  lemma MetaBuilt(es: seq<Entry>, target: Option<Text>)
    ensures MetaOf(es, target) == MetaFrom(es, AltName(es), target)
    ensures IsSymlinkMode(MetaOf(es, target)) == HasLinkMode(es)
  {
    hide AltName;
    FirstsFound(es);
    assert Relocated in es <==> exists k :: 0 <= k < |es| && es[k].Relocated?;
  }

  /** A directory: by flag bit 1 of the record; a `CL` entry on it is a panic. */
  lemma DirectoryBuilt(h: Header, id: Text, es: seq<Entry>, target: Option<Text>)
    requires h.flags / 2 % 2 == 1 && LinkTarget(es) == Ok(target)
    ensures var name := if AltName(es).Some? then AltName(es).value else id;
            BuildNode(h, id, es) ==
              if FirstOf(es, IsCL).Some? then Err(Panic)
              else Ok(Directory(h, DirectoryName(name), MetaFrom(es, AltName(es), target)))
  {
    hide AltName, LinkTarget, MetaOf, MetaFrom, FirstOf;
    FirstsFound(es);
    MetaBuilt(es, target);
    AltNameKept(es, target);
    assert h.IsDirectory() by { assert (h.flags as int) / 2 % 2 == 1; }
  }

  lemma AltNameKept(es: seq<Entry>, target: Option<Text>)
    ensures MetaOf(es, target).altName == AltName(es)
  {
    hide AltName;
  }

  /** No directory: a symbolic link or a file, and with a `CL` entry a directory elsewhere or a panic */
  lemma FileBuilt(h: Header, id: Text, es: seq<Entry>, target: Option<Text>, stem: Text, version: u16)
    requires h.flags / 2 % 2 == 0 && LinkTarget(es) == Ok(target)
    requires SplitVersion(if AltName(es).Some? then AltName(es).value else id) == Ok((stem, version))
    ensures var cl, m := FirstOf(es, IsCL), MetaFrom(es, AltName(es), target);
            var name := if AltName(es).Some? then AltName(es).value else stem;
            BuildNode(h, id, es) ==
              if cl.Some? then
                if HasLinkMode(es) then Err(Panic)
                else Ok(Directory(Elsewhere(h, cl.value.lba), DirectoryName(name), m))
              else if HasLinkMode(es) then Ok(Symlink(h, stem, m, version))
              else Ok(File(h, stem, m, version))
  {
    hide AltName, LinkTarget, MetaOf, MetaFrom, SplitVersion, FirstOf, HasLinkMode;
    FirstsFound(es);
    MetaBuilt(es, target);
    AltNameKept(es, target);
    assert !h.IsDirectory() by { assert (h.flags as int) / 2 % 2 == 0; }
  }

  // ---- `CE` entries make no difference ----

  lemma {:induction false} OthersCarryAll(es: seq<Entry>)
    ensures FirstAttributes(Others(es)) == FirstAttributes(es) && FirstExtensions(Others(es)) == FirstExtensions(es)
    ensures FirstChild(Others(es)) == FirstChild(es) && (Relocated in Others(es) <==> Relocated in es)
  {
    if es != [] {
      OthersCarryAll(es[1..]);
      if es[0].Continuation? {
        assert Others(es) == Others(es[1..]);
      } else {
        assert Others(es)[0] == es[0] && Others(es)[1..] == Others(es[1..]);
      }
      assert forall e :: e in es <==> e == es[0] || e in es[1..];
    }
  }

  lemma AreasDoNotCount(h: Header, id: Text, es: seq<Entry>)
    ensures BuildNode(h, id, Others(es)) == BuildNode(h, id, es)
  {
    hide NewNode, FollowChild, FirstAttributes, FirstExtensions, FirstChild, ContinuedNames, ContinuedLinks, JoinNames;
    OthersCarryAll(es);
    NamesOfOthers(es);
    LinksOfOthers(es);
  }

  lemma {:induction false} OthersOfVisit(read: Reader, queue: seq<Area>, steps: nat)
    requires Visit(read, queue, steps).Some?
    ensures Visit(read, queue, steps).value == Others(Visited(read, queue, steps))
    decreases steps
  {
    if queue != [] {
      var es := read(queue[0]).value;
      OthersOfVisit(read, queue[1..] + Areas(es), steps - 1);
      OthersAppend(es, Visited(read, queue[1..] + Areas(es), steps - 1));
    }
  }

  // ---- printed records ----

  /** All that is spelled for a record: its own entries, and those of the areas it leads to, in visit order */
  function AllWritten(ws: seq<Written>, layout: Layout, steps: nat): seq<Written> {
    ws + Spelled(layout, Inline(EntriesOf(ws)), steps)
  }

  /** The record carries these entries, and following its areas as they are laid out comes to an end. */
  ghost predicate IsWritten(image: seq<byte>, r: Raw, ws: seq<Written>, padding: nat, layout: Layout, steps: nat) {
    && Carries(r, ws, padding) && LaidOutAs(image, layout)
    && Visit(Planned(layout), Inline(EntriesOf(ws)), steps).Some?
  }

  /** A record is built from all that is written for it, `CE` entries or not. */
  lemma BuiltFromAll(image: seq<byte>, enc: Encoding, r: Raw, id: Text, ws: seq<Written>, padding: nat,
                     layout: Layout, steps: nat)
    requires IsWritten(image, r, ws, padding, layout, steps) && DecodeIdentifier(enc, r.id) == Ok(id)
    ensures RawMeaning(image, enc, r) ==
              NodeOf(BuildNode(r.HeaderIn(enc), id, EntriesOf(AllWritten(ws, layout, steps))))
  {
    hide RawMeaning, RecordCost, DecodeIdentifier, BuildNode, AreaEntries, WellFormed, Steps, Collected;
    hide PrintEntry, EntriesOf, Holds, Others, Inline;
    var read, es, queue := Reading(image), EntriesOf(ws), Inline(EntriesOf(ws));
    PrintedRecordMeaning(image, enc, r, id, ws, padding);
    VisitGoesAsPlanned(image, layout, queue, steps);
    CollectedIs(read, queue, steps);
    OthersOfVisit(read, queue, steps);
    EntriesAppend(ws, Spelled(layout, queue, steps));
    OthersAppend(es, Visited(read, queue, steps));
    AreasDoNotCount(r.HeaderIn(enc), id, EntriesOf(AllWritten(ws, layout, steps)));
  }

  /** The fixed part of a printed record, bits 5 and 6 of its flags dropped */
  function FixedPart(r: Raw, enc: Encoding): Header
    requires r.Valid()
  {
    Header(r.Length() as byte, r.xattrLength, r.location, r.size, r.time,
           r.flags % 32 + r.flags / 128 * 128, r.volumeSequence, enc)
  }

  /**
   * A printed record with flag bit 1 is a directory at its location and of its size, named by its `NM`
   * entries or else by its identifier, with `.` and `..` for the identifiers 0 and 1; it is a relocated one if there is
   * an `RE` entry, and names the extensions of its first `ER` entry. A `CL` entry makes it unreadable.
   */
  lemma WrittenDirectory(image: seq<byte>, enc: Encoding, r: Raw, id: Text, ws: seq<Written>, padding: nat,
                         layout: Layout, steps: nat, pieces: seq<Text>, cuts: seq<seq<Part>>)
    requires IsWritten(image, r, ws, padding, layout, steps) && DecodeIdentifier(enc, r.id) == Ok(id)
    requires r.flags / 2 % 2 == 1
    requires CarryName(EntriesOf(AllWritten(ws, layout, steps)), pieces)
    requires CarryParts(EntriesOf(AllWritten(ws, layout, steps)), cuts)
    ensures var es := EntriesOf(AllWritten(ws, layout, steps));
            var alt := if pieces == [] then None else Some(Flatten(pieces));
            var target := if cuts == [] then None else Some(PathText(Flatten(cuts)));
            RawMeaning(image, enc, r) ==
              if FirstOf(es, IsCL).Some? then None
              else
                Some(Directory(FixedPart(r, enc), DirectoryName(if alt.Some? then alt.value else id),
                               MetaFrom(es, alt, target)))
  {
    hide RawMeaning, DecodeIdentifier, BuildNode, IsWritten, AllWritten, EntriesOf, CarryName, CarryParts, PathText;
    hide MetaFrom, FirstOf, DirectoryName, AltName, LinkTarget, Flatten;
    var es := EntriesOf(AllWritten(ws, layout, steps));
    WrittenIsValid(image, r, ws, padding, layout, steps);
    BuiltFromAll(image, enc, r, id, ws, padding, layout, steps);
    NameIsCarried(es, pieces);
    LinkSpellsPath(es, cuts);
    FlagKept(r.flags);
    DirectoryBuilt(r.HeaderIn(enc), id, es, if cuts == [] then None else Some(PathText(Flatten(cuts))));
  }

  lemma PlainRecordMeans(image: seq<byte>, enc: Encoding, r: Raw, id: Text)
    requires r.Valid() && r.use == [] && DecodeIdentifier(enc, r.id) == Ok(id)
    ensures RawMeaning(image, enc, r) == NodeOf(BuildNode(r.HeaderIn(enc), id, []))
    ensures RecordCost(image, enc, r) == Finite(0)
  {
    hide BuildNode, DecodeIdentifier, ParseSystemUse, Collected, AreaEntries, Steps;
    SystemUseTiles([]);
    NothingToFollow(image, []);
  }

  /**
   * A record without system use is a directory or a file by flag bit 1, named by its identifier, and takes
   * no reads of its own; a file's name is without version and final dot.
   */
  lemma PlainRecord(image: seq<byte>, enc: Encoding, r: Raw, id: Text, name: Text, stem: Text, version: u16)
    requires r.Valid() && r.use == [] && DecodeIdentifier(enc, r.id) == Ok(id)
    ensures var nothing := Meta(None, None, None, None, [], false);
            && (r.flags / 2 % 2 == 1 ==>
                  RawMeaning(image, enc, r) == Some(Directory(FixedPart(r, enc), DirectoryName(id), nothing)))
            && (r.flags / 2 % 2 == 0 && HasVersion(id, name, version) && IsStem(stem, name) ==>
                  RawMeaning(image, enc, r) == Some(File(FixedPart(r, enc), stem, nothing, version)))
    ensures RecordCost(image, enc, r) == Finite(0)
  {
    hide RawMeaning, RecordCost, DecodeIdentifier, BuildNode, DirectoryName, HasVersion, IsStem, SplitVersion;
    PlainRecordMeans(image, enc, r, id);
    FlagKept(r.flags);
    NothingWritten();
    if r.flags / 2 % 2 == 1 {
      DirectoryBuilt(r.HeaderIn(enc), id, [], None);
    } else if HasVersion(id, name, version) && IsStem(stem, name) {
      VersionTaken(id, name, stem, version);
      FileBuilt(r.HeaderIn(enc), id, [], None, stem, version);
    }
  }

  /** The entries of a directory for itself and for its parent, in either encoding */
  lemma DotRecords(image: seq<byte>, enc: Encoding, r: Raw)
    requires r.Valid() && r.use == [] && r.flags / 2 % 2 == 1 && r.id in {[0], [1]}
    ensures RawMeaning(image, enc, r) ==
              Some(Directory(FixedPart(r, enc), if r.id == [0] then [46] else [46, 46],
                             Meta(None, None, None, None, [], false)))
  {
    hide RawMeaning;
    PlainRecord(image, enc, r, r.id, [], [], 1);
  }

  lemma NothingWritten()
    ensures LinkTarget([]) == Ok(None) && AltName([]) == None && !HasLinkMode([])
    ensures FirstOf([], IsCL) == None && MetaFrom([], None, None) == Meta(None, None, None, None, [], false)
  {
  }

  lemma WrittenIsValid(image: seq<byte>, r: Raw, ws: seq<Written>, padding: nat, layout: Layout, steps: nat)
    requires IsWritten(image, r, ws, padding, layout, steps)
    ensures r.Valid()
  {
  }

  lemma FlagKept(f: byte)
    ensures FileFlags(f) == f % 32 + f / 128 * 128
    ensures FileFlags(f) / 2 % 2 == f / 2 % 2
  {
    var n, low, high := f as int, f as int % 32, f as int / 128;
    var g := low + high * 128;
    assert g / 2 == low / 2 + 64 * high;
    assert n / 2 == low / 2 + 16 * (n / 32);
    assert FileFlags(f) as int == g;
  }

  /**
   * A printed record without flag bit 1 is a symbolic link if the mode of its first `PX` entry has bits 13 and
   * 15, with the path that its `SL` entries spell as target, and else a file; its name is that of its `NM` entries
   * or else its identifier, less a version and a final dot. A `CL` entry turns the file into the directory it
   * points to, one block long, and makes a link unreadable.
   */
  lemma WrittenFile(image: seq<byte>, enc: Encoding, r: Raw, id: Text, ws: seq<Written>, padding: nat,
                    layout: Layout, steps: nat, pieces: seq<Text>, cuts: seq<seq<Part>>,
                    name: Text, stem: Text, version: u16)
    requires IsWritten(image, r, ws, padding, layout, steps) && DecodeIdentifier(enc, r.id) == Ok(id)
    requires r.flags / 2 % 2 == 0
    requires CarryName(EntriesOf(AllWritten(ws, layout, steps)), pieces)
    requires CarryParts(EntriesOf(AllWritten(ws, layout, steps)), cuts)
    requires HasVersion(if pieces == [] then id else Flatten(pieces), name, version) && IsStem(stem, name)
    ensures var es := EntriesOf(AllWritten(ws, layout, steps));
            var alt := if pieces == [] then None else Some(Flatten(pieces));
            var target := if cuts == [] then None else Some(PathText(Flatten(cuts)));
            var h, m, cl := FixedPart(r, enc), MetaFrom(es, alt, target), FirstOf(es, IsCL);
            RawMeaning(image, enc, r) ==
              if HasLinkMode(es) then if cl.Some? then None else Some(Symlink(h, stem, m, version))
              else if cl.None? then Some(File(h, stem, m, version))
              else
                Some(Directory(Elsewhere(h, cl.value.lba), DirectoryName(if alt.Some? then alt.value else stem), m))
  {
    hide RawMeaning, DecodeIdentifier, BuildNode, IsWritten, AllWritten, EntriesOf, CarryName, CarryParts, PathText;
    hide MetaFrom, FirstOf, DirectoryName, AltName, LinkTarget, Flatten, HasVersion, IsStem, HasLinkMode, SplitVersion;
    hide Elsewhere;
    var es := EntriesOf(AllWritten(ws, layout, steps));
    WrittenIsValid(image, r, ws, padding, layout, steps);
    BuiltFromAll(image, enc, r, id, ws, padding, layout, steps);
    NameIsCarried(es, pieces);
    LinkSpellsPath(es, cuts);
    FlagKept(r.flags);
    VersionTaken(if pieces == [] then id else Flatten(pieces), name, stem, version);
    FileBuilt(r.HeaderIn(enc), id, es, if cuts == [] then None else Some(PathText(Flatten(cuts))), stem, version);
  }

  // ---- records that make the reader panic ----

  lemma PanicsIfBuilding(image: seq<byte>, enc: Encoding, r: Raw, id: Text, ws: seq<Written>, padding: nat,
                         layout: Layout, steps: nat)
    requires IsWritten(image, r, ws, padding, layout, steps) && DecodeIdentifier(enc, r.id) == Ok(id)
    ensures RawPanics(image, enc, r) <==>
              BuildNode(r.HeaderIn(enc), id, EntriesOf(AllWritten(ws, layout, steps))) == Err(Panic)
  {
    hide DecodeIdentifier, BuildNode, AreaEntries, WellFormed, Steps, Collected, ParseSystemUse, ChasePanics;
    hide PrintEntry, EntriesOf, Holds, Others, Inline, Spelled;
    var read, es, queue := Reading(image), EntriesOf(ws), Inline(EntriesOf(ws));
    SystemUseRoundTrip(ws, padding);
    VisitGoesAsPlanned(image, layout, queue, steps);
    CollectedIs(read, queue, steps);
    PanicHasNoResult(image, queue);
    OthersOfVisit(read, queue, steps);
    EntriesAppend(ws, Spelled(layout, queue, steps));
    OthersAppend(es, Visited(read, queue, steps));
    AreasDoNotCount(r.HeaderIn(enc), id, EntriesOf(AllWritten(ws, layout, steps)));
  }

  /**
   * A `CL` entry on a record that is no dummy file, but a directory or a symbolic link, makes the reader panic, and so
   * does a component record of its link target that is root, current or parent and has a text.
   */
  lemma PanickingRecord(image: seq<byte>, enc: Encoding, r: Raw, id: Text, ws: seq<Written>, padding: nat,
                        layout: Layout, steps: nat, k: nat, component: LinkRecord)
    requires IsWritten(image, r, ws, padding, layout, steps) && DecodeIdentifier(enc, r.id) == Ok(id)
    ensures var es := EntriesOf(AllWritten(ws, layout, steps));
            FirstOf(es, IsCL).Some? && LinkTarget(es).Ok? && r.flags / 2 % 2 == 1 ==> RawPanics(image, enc, r)
    ensures var es := EntriesOf(AllWritten(ws, layout, steps));
            var full := if AltName(es).Some? then AltName(es).value else id;
            FirstOf(es, IsCL).Some? && LinkTarget(es).Ok? && HasLinkMode(es) && SplitVersion(full).Ok? ==>
              RawPanics(image, enc, r)
    ensures PanickingPart(EntriesOf(AllWritten(ws, layout, steps)), k, component) ==> RawPanics(image, enc, r)
  {
    hide RawPanics, DecodeIdentifier, BuildNode, IsWritten, AllWritten, EntriesOf, LinkTarget, AltName, SplitVersion;
    hide FirstOf, HasLinkMode, MetaFrom, PanickingPart;
    var es := EntriesOf(AllWritten(ws, layout, steps));
    WrittenIsValid(image, r, ws, padding, layout, steps);
    PanicsIfBuilding(image, enc, r, id, ws, padding, layout, steps);
    FlagKept(r.flags);
    if LinkTarget(es).Ok? {
      if r.flags / 2 % 2 == 1 {
        DirectoryBuilt(r.HeaderIn(enc), id, es, LinkTarget(es).value);
      } else if SplitVersion(if AltName(es).Some? then AltName(es).value else id).Ok? {
        var split := SplitVersion(if AltName(es).Some? then AltName(es).value else id).value;
        FileBuilt(r.HeaderIn(enc), id, es, LinkTarget(es).value, split.0, split.1);
      }
    }
    if PanickingPart(es, k, component) {
      PartPanics(r.HeaderIn(enc), id, es, k, component);
    }
  }

  lemma PartPanics(h: Header, id: Text, es: seq<Entry>, k: nat, r: LinkRecord)
    requires PanickingPart(es, k, r)
    ensures BuildNode(h, id, es) == Err(Panic)
  {
    hide LinkTarget, NewNode;
    SpecialPartWithText(es, k, r);
  }

  // ---- a symbolic link, byte by byte ----

  /** `PX` with mode 0o120777, one link, user and group 0 */
  const LINK_PX: seq<byte> :=
    [80, 88, 36, 1] + [0xFF, 0xA1, 0, 0, 0, 0, 0xA1, 0xFF] + [1, 0, 0, 0, 0, 0, 0, 1]
    + [0, 0, 0, 0, 0, 0, 0, 0] + [0, 0, 0, 0, 0, 0, 0, 0]

  /** `SL` with the parent and the name `a` */
  const LINK_SL: seq<byte> := [83, 76, 10, 1, 0, 4, 0, 0, 1, 97]

  /** A record called `L` */
  const LINK_RECORD: Raw := Raw(0, 21, 0, [0, 0, 0, 0, 0, 0, 0], 0, 1, [76], LINK_PX + LINK_SL)

  const LINK_WRITTEN: seq<Written> := [
    Plain(Attributes(0xA1FF, 1, 0, 0, None)),
    Plain(Link(false, [LinkRecord(4, []), LinkRecord(0, [97])]))]

  lemma WordsSpelled()
    ensures [80, 88, 36, 1] + PrintWords([0xA1FF, 1, 0, 0]) == LINK_PX
  {
    assert [0][1..] == [] && [0, 0][1..] == [0] && [1, 0, 0][1..] == [0, 0] && [0xA1FF, 1, 0, 0][1..] == [1, 0, 0];
    assert PrintWords([0]) == [0, 0, 0, 0, 0, 0, 0, 0];
    assert PrintWords([0, 0]) == [0, 0, 0, 0, 0, 0, 0, 0] + [0, 0, 0, 0, 0, 0, 0, 0];
    assert PrintWords([1, 0, 0]) == [1, 0, 0, 0, 0, 0, 0, 1] + PrintWords([0, 0]);
    assert Print32(0xA1FF) == [0xFF, 0xA1, 0, 0, 0, 0, 0xA1, 0xFF];
  }

  lemma AttributesSpelled()
    ensures WellFormed(LINK_WRITTEN[0]) && PrintEntry(LINK_WRITTEN[0]) == LINK_PX
  {
    hide PrintWords;
    WordsSpelled();
    assert [0xA1FF, 1, 0, 0] + [] == [0xA1FF, 1, 0, 0];
  }

  lemma ComponentsSpelled()
    ensures var rs := [LinkRecord(4, []), LinkRecord(0, [97])];
            PrintAll(PrintLinkRecord, rs) == [4, 0, 0, 1, 97] && forall r :: r in rs ==> WellFormedRecord(r)
  {
    var rs := [LinkRecord(4, []), LinkRecord(0, [97])];
    assert rs[1..] == [LinkRecord(0, [97])] && rs[1..][1..] == [];
    AsciiIsValid([]);
    AsciiIsValid([97]);
    assert PrintAll(PrintLinkRecord, rs[1..]) == [0, 1, 97] + [];
    assert PrintAll(PrintLinkRecord, rs) == [4, 0] + [] + [0, 1, 97];
  }

  lemma LinkSpelled()
    ensures WellFormed(LINK_WRITTEN[1]) && PrintEntry(LINK_WRITTEN[1]) == LINK_SL
  {
    hide PrintAll, WellFormedRecord;
    ComponentsSpelled();
    assert LINK_SL == [83, 76, 10, 1] + [0] + [4, 0, 0, 1, 97];
  }

  lemma LinkCarries()
    ensures Carries(LINK_RECORD, LINK_WRITTEN, 0)
  {
    hide PrintEntry, WellFormed;
    var ws := LINK_WRITTEN;
    AttributesSpelled();
    LinkSpelled();
    assert ws[1..] == [ws[1]] && ws[1..][1..] == [];
    assert PrintAll(PrintEntry, ws[1..]) == PrintEntry(ws[1]) + [];
    assert PrintAll(PrintEntry, ws) == LINK_PX + LINK_SL;
  }

  lemma LinkEntries()
    ensures AllWritten(LINK_WRITTEN, map[], 0) == LINK_WRITTEN && Inline(EntriesOf(LINK_WRITTEN)) == []
    ensures var es := EntriesOf(LINK_WRITTEN);
            && CarryName(es, []) && CarryParts(es, [[Up, Named([97])]])
            && FirstOf(es, IsPX) == Some(es[0]) && FirstOf(es, IsER) == None && FirstOf(es, IsCL) == None
            && forall k :: 0 <= k < |es| ==> !es[k].Relocated?
  {
    var es := EntriesOf(LINK_WRITTEN);
    assert es == [Attributes(0xA1FF, 1, 0, 0, None), Link(false, [LinkRecord(4, []), LinkRecord(0, [97])])];
    assert es[1..] == [es[1]] && es[1..][1..] == [];
    assert Areas(es[1..]) == [] && Areas(es) == [] + Areas(es[1..]);
    assert Spelled(map[], [], 0) == [] && LINK_WRITTEN + [] == LINK_WRITTEN;
    assert !HasSlash([97]);
    assert SayParts(es[1].records, [Up, Named([97])]);
    assert CarryName(es[1..], []) && CarryParts(es[1..], [[Up, Named([97])]]);
    assert FirstOf(es[1..], IsER) == None && FirstOf(es[1..], IsCL) == None;
  }

  lemma LinkNameDecodes()
    ensures DecodeIdentifier(Iso9660, [76]) == Ok([76]) && HasVersion([76], [76], 1) && IsStem([76], [76])
  {
    AsciiIsValid([76]);
    NothingToTrim([76]);
  }

  lemma LinkText()
    ensures PathText(Flatten([[Up, Named([97])]])) == [46, 46, 47, 97]
  {
    var ps: seq<Part> := [Up, Named([97])];
    assert [ps][1..] == [] && Flatten([ps]) == ps + [];
    assert ps[1..] == [Named([97])] && Words(ps[1..]) == [97];
    assert Words(ps) == [46, 46] + [47] + [97];
  }

  lemma LinkMeta()
    ensures MetaFrom(EntriesOf(LINK_WRITTEN), None, Some([46, 46, 47, 97])) ==
              Meta(None, Some([46, 46, 47, 97]), Some(0xA1FF), None, [], false)
    ensures HasLinkMode(EntriesOf(LINK_WRITTEN))
  {
    LinkEntries();
  }

  /** It stands for the symbolic link `L` to `../a`. */
  lemma LinkRecordMeans(image: seq<byte>)
    ensures LINK_RECORD.Valid()
    ensures RawMeaning(image, Iso9660, LINK_RECORD) ==
              Some(Symlink(Header(80, 0, 21, 0, [0, 0, 0, 0, 0, 0, 0], 0, 1, Iso9660), [76],
                           Meta(None, Some([46, 46, 47, 97]), Some(0xA1FF), None, [], false), 1))
  {
    hide RawMeaning, EntriesOf, AllWritten, Inline, CarryName, CarryParts, HasVersion, IsStem, DecodeIdentifier;
    hide PathText, Flatten, MetaFrom, HasLinkMode, FirstOf, PrintEntry, WellFormed;
    LinkCarries();
    LinkEntries();
    LinkNameDecodes();
    LinkText();
    LinkMeta();
    WrittenFile(image, Iso9660, LINK_RECORD, [76], LINK_WRITTEN, 0, map[], 0, [], [[Up, Named([97])]], [76], [76], 1);
  }
}
