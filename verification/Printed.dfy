/**
 Printed records: what a record stands for whose system use entries are printed into it and into
 continuation areas, and an image with a record that is followed forever.
 */
module Printed {
  import opened Base
  import opened Strings
  import opened Susp
  import opened SuspRoundTrip
  import opened Record
  import opened Identifier
  import opened RockRidge
  import opened DirectoryEntry
  import opened BlockDevice
  import opened Continuation
  import opened Nesting
  import opened Directory
  import opened Packing

  /** The record carries these entries, and padding after them, in its own system use area. */
  ghost predicate Carries(r: Raw, ws: seq<Written>, padding: nat) {
    && r.Valid() && ws != [] && (forall w :: w in ws ==> WellFormed(w))
    && r.use == PrintAll(PrintEntry, ws) + Zeros(padding)
  }

  function NodeOf(built: Result<Node>): Option<Node> {
    if built.Ok? then Some(built.value) else None
  }

  /**
   * A record printed with system use entries stands for the entry built from those of them that are
   * no `CE` entries and from what the worklist collects from the last `CE`; reading it takes as many
   * reads as the worklist has steps.
   */
  lemma PrintedRecordMeaning(image: seq<byte>, enc: Encoding, r: Raw, name: Text, ws: seq<Written>, padding: nat)
    requires Carries(r, ws, padding) && DecodeIdentifier(enc, r.id) == Ok(name)
    ensures var es := EntriesOf(ws);
            && RawMeaning(image, enc, r) ==
               (match After(Others(es), Collected(Reading(image), Inline(es)))
                case None => None
                case Some(all) => NodeOf(BuildNode(r.HeaderIn(enc), name, all)))
            && RecordCost(image, enc, r) == Steps(Reading(image), Inline(es))
  {
    hide DecodeIdentifier, ParseSystemUse, BuildNode, Collected, Steps, AreaEntries, WellFormed, Others, Inline;
    SystemUseRoundTrip(ws, padding);
  }

  lemma NothingToFollow(image: seq<byte>, es: seq<Entry>)
    requires Areas(es) == []
    ensures After(Others(es), Collected(Reading(image), Inline(es))) == Some(es)
    ensures Steps(Reading(image), Inline(es)) == Finite(0)
  {
    hide AreaEntries;
    NoAreasNoChange(es);
    CollectedIs(Reading(image), [], 0);
    NoSteps(Reading(image));
    assert Others(es) + [] == es;
  }

  // ---- records that are continued in printed areas ----

  /** The image holds these entries, and zeros after them, as the area. */
  ghost predicate Holds(image: seq<byte>, a: Area, ws: seq<Written>) {
    && ws != [] && (forall w :: w in ws ==> WellFormed(w))
    && |PrintAll(PrintEntry, ws)| <= a.length
    && AreaBytes(image, a) == Some(PrintAll(PrintEntry, ws) + Zeros(a.length - |PrintAll(PrintEntry, ws)|))
  }

  /** Which entries each area is to hold */
  type Layout = map<Area, seq<Written>>

  ghost predicate LaidOutAs(image: seq<byte>, layout: Layout) {
    forall a :: a in layout ==> Holds(image, a, layout[a])
  }

  /** Reading areas as the layout has them */
  function Planned(layout: Layout): Reader {
    a => if a in layout then Some(EntriesOf(layout[a])) else None
  }

  /** The entries of the areas visited, as they are spelled, in visit order */
  function Spelled(layout: Layout, queue: seq<Area>, steps: nat): seq<Written>
    decreases steps
  {
    if queue == [] || steps == 0 || queue[0] !in layout then []
    else
      var ws := layout[queue[0]];
      ws + Spelled(layout, queue[1..] + Areas(EntriesOf(ws)), steps - 1)
  }

  lemma HeldAreaReads(image: seq<byte>, a: Area, ws: seq<Written>)
    requires Holds(image, a, ws)
    ensures AreaEntries(image, a) == Some(EntriesOf(ws))
  {
    hide ParseSystemUse, WellFormed, PrintEntry, AreaBytes;
    SystemUseRoundTrip(ws, a.length - |PrintAll(PrintEntry, ws)|);
  }

  lemma EntriesAppend(a: seq<Written>, b: seq<Written>)
    ensures EntriesOf(a + b) == EntriesOf(a) + EntriesOf(b)
  {
  }

  /** The worklist on the image goes as the layout says. */
  lemma {:induction false} VisitGoesAsPlanned(image: seq<byte>, layout: Layout, queue: seq<Area>, steps: nat)
    requires LaidOutAs(image, layout) && Visit(Planned(layout), queue, steps).Some?
    ensures Visit(Reading(image), queue, steps) == Visit(Planned(layout), queue, steps)
    ensures Visited(Reading(image), queue, steps) == EntriesOf(Spelled(layout, queue, steps))
    ensures forall w :: w in Spelled(layout, queue, steps) ==> WellFormed(w)
    decreases steps
  {
    hide AreaEntries, Holds, EntriesOf, WellFormed;
    if queue != [] {
      var a := queue[0];
      HeldAreaReads(image, a, layout[a]);
      HeldIsWellFormed(image, a, layout[a]);
      var next := queue[1..] + Areas(EntriesOf(layout[a]));
      VisitGoesAsPlanned(image, layout, next, steps - 1);
      EntriesAppend(layout[a], Spelled(layout, next, steps - 1));
    } else {
      assert EntriesOf([]) == [];
    }
  }

  lemma HeldIsWellFormed(image: seq<byte>, a: Area, ws: seq<Written>)
    requires Holds(image, a, ws)
    ensures forall w :: w in ws ==> WellFormed(w)
  {
  }

  /** The fields of printed entries, one by one */
  function FieldsOf(ws: seq<Written>): (fs: seq<seq<byte>>)
    ensures |fs| == |ws| && forall k :: 0 <= k < |ws| ==> fs[k] == PrintEntry(ws[k])
  {
    Map(PrintEntry, ws)
  }

  lemma PrintedField(w: Written)
    requires WellFormed(w)
    ensures ParseEntry(PrintEntry(w)) == Done(EntryOf(w), [])
    ensures Fits(PrintEntry(w)) && |PrintEntry(w)| == PrintEntry(w)[2] as int
    ensures IsNameField(PrintEntry(w)) && |PrintEntry(w)| >= 5 ==> Intact(PrintEntry(w)[5..])
  {
    hide ParseEntry, ValidUtf8, TrimNuls, PrintData, Registered;
    EntryRoundTrip(w);
    assert PrintEntry(w) + [] == PrintEntry(w);
    SpelledSignature(w);
    if w.Plain? && w.entry.Name? {
      NameSpelled(w.entry);
    }
  }

  lemma SpelledSignature(w: Written)
    requires WellFormed(w)
    ensures |AsField(w).sig| == 2 && (AsField(w).sig == Signature(NM) ==> w.Plain? && w.entry.Name?)
  {
    hide Registered, PrintData;
  }

  lemma NameSpelled(e: Entry)
    requires e.Name? && ValuesFit(e)
    ensures PrintEntry(Plain(e))[5..] == e.name && Intact(e.name)
  {
    hide ValidUtf8;
  }

  lemma {:induction false} PrintedPiecesAreIntact(ws: seq<Written>)
    requires forall w :: w in ws ==> WellFormed(w)
    ensures AllIntact(Pieces(FieldsOf(ws)))
  {
    hide WellFormed, PrintEntry, Intact, IsNameField;
    if ws != [] {
      var fs := FieldsOf(ws);
      assert fs[1..] == FieldsOf(ws[1..]);
      PrintedPiecesAreIntact(ws[1..]);
      PrintedField(ws[0]);
      if IsNameField(fs[0]) && |fs[0]| >= 5 {
        assert Pieces(fs)[0] == PrintEntry(ws[0])[5..] && Pieces(fs)[1..] == Pieces(fs[1..]);
      } else {
        assert Pieces(fs) == Pieces(fs[1..]);
      }
    }
  }

  lemma KeepsAltName(h: Header, id: Text, es: seq<Entry>)
    ensures BuildNode(h, id, es).Ok? ==> BuildNode(h, id, es).value.meta.altName == AltName(es)
  {
    hide AltName, LinkTarget, SplitVersion, FirstAttributes, FirstExtensions, FirstChild;
  }

  /**
   * A record printed with entries that are continued in printed areas: whatever the layout of the
   * areas, as long as following it comes to an end, the record stands for the entry built from all
   * entries in visit order; its name is that of all the pieces and its link target that of all the
   * component records, wherever the cuts fall.
   */
  lemma ContinuedRecordMeaning(image: seq<byte>, enc: Encoding, r: Raw, name: Text, ws: seq<Written>, padding: nat,
                               layout: Layout, steps: nat)
    requires Carries(r, ws, padding) && DecodeIdentifier(enc, r.id) == Ok(name) && LaidOutAs(image, layout)
    requires Visit(Planned(layout), Inline(EntriesOf(ws)), steps).Some?
    ensures var es := EntriesOf(ws);
            var all := Others(es) + Visit(Planned(layout), Inline(es), steps).value;
            var pieces := Pieces(FieldsOf(ws + Spelled(layout, Inline(es), steps)));
            && RawMeaning(image, enc, r) == NodeOf(BuildNode(r.HeaderIn(enc), name, all))
            && LinkTarget(all)
               == TargetOf(AllRecords(ContinuedLinks(Links(EntriesOf(ws + Spelled(layout, Inline(es), steps))))))
            && (ProperlyCut(FieldsOf(ws + Spelled(layout, Inline(es), steps))) && pieces != [] ==>
                  && AltName(all) == Some(Flatten(pieces))
                  && (RawMeaning(image, enc, r).Some? ==>
                        RawMeaning(image, enc, r).value.meta.altName == Some(Flatten(pieces))))
  {
    hide RawMeaning, RecordCost, DecodeIdentifier, BuildNode, AreaEntries, WellFormed, Steps, Collected;
    hide PrintEntry, EntriesOf, AltName, LinkTarget, TargetOf, Links, Pieces, ProperlyCut, Holds, FieldsOf;
    hide Others, Inline;
    var read, es := Reading(image), EntriesOf(ws);
    var queue := Inline(es);
    PrintedRecordMeaning(image, enc, r, name, ws, padding);
    VisitGoesAsPlanned(image, layout, queue, steps);
    CollectedIs(read, queue, steps);
    var spelled := ws + Spelled(layout, queue, steps);
    var fs := FieldsOf(spelled);
    EntriesAppend(ws, Spelled(layout, queue, steps));
    AllSpelled(spelled);
    LinkAcrossAreas(read, es, steps, fs);
    if ProperlyCut(fs) && Pieces(fs) != [] {
      NameAcrossAreas(read, es, steps, fs);
      PrintedPiecesAreIntact(spelled);
      KeepsAltName(r.HeaderIn(enc), name, Others(es) + Visit(Planned(layout), queue, steps).value);
    }
  }

  lemma AllSpelled(ws: seq<Written>)
    requires forall w :: w in ws ==> WellFormed(w)
    ensures ParsedFrom(ParseEntry, EntriesOf(ws), FieldsOf(ws))
    ensures forall f :: f in FieldsOf(ws) ==> Fits(f) && |f| == f[2] as int
  {
    hide WellFormed, PrintEntry, ParseEntry;
    forall k | 0 <= k < |ws|
      ensures ParseEntry(FieldsOf(ws)[k]) == Done(EntriesOf(ws)[k], [])
      ensures Fits(FieldsOf(ws)[k]) && |FieldsOf(ws)[k]| == FieldsOf(ws)[k][2] as int
    {
      PrintedField(ws[k]);
    }
  }

  // ---- an image that the walk does not get past ----

  /** The area at the start of block 1 that a single `CE` entry fills */
  const SELF := Area(1, 0, 28)

  /** A record whose only system use entry leads to that area */
  const HOOK: Raw := Raw(0, 0, 0, [0, 0, 0, 0, 0, 0, 0], 0, 1, [0], PrintEntry(Plain(Continuation(SELF))))

  /** A directory of one block at the start of the image */
  const HOOKED: Header := Header(34, 0, 0, 2048, [0, 0, 0, 0, 0, 0, 0], 2, 1, Iso9660)

  lemma HookFits()
    ensures Carries(HOOK, [Plain(Continuation(SELF))], 0) && HOOK.Length() == 62
    ensures FitsBlock([HOOK]) && forall b :: 0 <= b < |[[HOOK]]| ==> FitsBlock([[HOOK]][b])
  {
    hide PrintRecord;
    var ws, rs := [Plain(Continuation(SELF))], [HOOK];
    assert ws[1..] == [] && PrintAll(PrintEntry, ws) == PrintEntry(ws[0]);
    assert PrintAll(PrintEntry, ws) + Zeros(0) == HOOK.use;
    assert rs[1..] == [] && |PrintRecords(rs)| == 62;
  }

  /** One block with that record, and one whose only entry is a `CE` entry that leads to itself */
  ghost function SelfImage(): (image: seq<byte>)
    ensures |image| == 2 * BLOCK
  {
    HookFits();
    PrintBlocks([[HOOK]]) + (PrintEntry(Plain(Continuation(SELF))) + Zeros(2020))
  }

  lemma SelfIsHeld()
    ensures Holds(SelfImage(), SELF, [Plain(Continuation(SELF))])
  {
    hide PrintBlocks;
    var ws, image := [Plain(Continuation(SELF))], SelfImage();
    HookFits();
    assert ws[1..] == [] && PrintAll(PrintEntry, ws) == PrintEntry(ws[0]);
    assert image[BLOCK..BLOCK + 28] == PrintAll(PrintEntry, ws) + Zeros(0);
  }

  lemma SelfNeverEnds()
    ensures Collected(Reading(SelfImage()), [SELF]).None? && Steps(Reading(SelfImage()), [SELF]).Endless?
  {
    hide AreaEntries, SelfImage, Steps, Collected;
    var read := Reading(SelfImage());
    SelfIsHeld();
    HeldAreaReads(SelfImage(), SELF, [Plain(Continuation(SELF))]);
    var es := EntriesOf([Plain(Continuation(SELF))]);
    assert es == [Continuation(SELF)] && es[1..] == [] && Areas(es) == [SELF];
    forall n: nat
      ensures Unfinished(read, [SELF], n)
    {
      CycleNeverEnds(read, {SELF}, [SELF], n);
    }
    if Steps(read, [SELF]).Finite? {
      StepsToCome(read, [SELF], Steps(read, [SELF]).value);
    }
    CollectedStops(read, [SELF]);
  }

  /** Reading the only record of that directory never ends, and no entry comes of it. */
  lemma SelfIsACycle()
    ensures EntryAt(SelfImage(), HOOKED, 0).None?
    ensures EntryCost(SelfImage(), HOOKED, None, 0).Endless?
  {
    hide RawMeaning, RecordCost, EntryCost, EntryAt, SelfImage, PrintBlocks, FitsBlock, Packed, Steps, Collected;
    var image, blocks, ws := SelfImage(), [[HOOK]], [Plain(Continuation(SELF))];
    HookFits();
    SelfIsPacked();
    assert ws[1..] == [] && EntriesOf(ws) == [Continuation(SELF)] && EntriesOf(ws)[1..] == [];
    assert Areas(EntriesOf(ws)) == [SELF];
    SelfNeverEnds();
    PrintedRecordMeaning(image, Iso9660, HOOK, [0], ws, 0);
    StepAtRecord(image, HOOKED, blocks, 0, 0);
    CostAtRecord(image, HOOKED, blocks, 0, 0, None);
  }

  lemma SelfIsPacked()
    ensures Packed(SelfImage(), HOOKED, [[HOOK]])
  {
    hide PrintEntry, FitsBlock, PrintBlocks, Packed;
    HookFits();
    var after := PrintEntry(Plain(Continuation(SELF))) + Zeros(2020);
    PrintedImageIsPacked([], HOOKED, [[HOOK]], after);
    assert [] + PrintBlocks([[HOOK]]) + after == SelfImage();
  }

  /**
   * However many reads a device has to offer, without a fault: the walk over that directory uses
   * them all up on its first entry and does not get past it.
   */
  method WalkForever(script: seq<Outcome>) returns (it: DirectoryIterator, r: Option<Result<Node>>)
    requires AllFull(script, 0, |script|)
    ensures it.dev.image == SelfImage() && it.dev.script == script && it.dir == HOOKED
    ensures r == Some(Err(Io)) && it.dev.served > |script| && it.next == Some(0)
  {
    hide EntryAt, EntryCost, PrintBlocks, PrintEntry;
    SelfIsACycle();
    HookFits();
    var dev := new Device(PrintBlocks([[HOOK]]) + (PrintEntry(Plain(Continuation(SELF))) + Zeros(2020)), script);
    it := new DirectoryIterator(dev, HOOKED);
    r := it.Next();
  }
}
