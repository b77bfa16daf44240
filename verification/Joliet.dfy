/**
 Which of two root directories is served: the supplementary one of a disc without Rock Ridge, the
 primary one of a disc with it, told by what is printed in the first record of the primary root.
 */
module Joliet {
  import opened Base
  import opened Strings
  import opened Susp
  import opened SuspRoundTrip
  import opened Record
  import opened RockRidge
  import opened DirectoryEntry
  import opened BlockDevice
  import opened Continuation
  import opened Directory
  import opened Packing
  import opened Printed
  import opened RecordMeaning
  import opened ServerState
  import opened Mounting
  import Volume
  import Server

  /** The directory that a descriptor names: its root record, called by the name in it, and nothing more */
  function Named(t: Volume.Table): Node {
    Directory(t.root, DirectoryName(t.rootId), Meta(None, None, None, None, [], false))
  }

  // ---- what the first record says about Rock Ridge ----

  lemma {:induction false} NoExtensions(es: seq<Entry>)
    requires forall k :: 0 <= k < |es| ==> !es[k].Extensions?
    ensures FirstExtensions(es) == []
  {
    if es != [] {
      NoExtensions(es[1..]);
    }
  }

  lemma KeepsExtensions(h: Header, id: Text, es: seq<Entry>)
    ensures BuildNode(h, id, es).Ok? ==> BuildNode(h, id, es).value.meta.extensions == FirstExtensions(es)
  {
    hide AltName, LinkTarget, FirstAttributes, FirstChild;
  }

  /** No `ER` entry is written for the record: there is no system use at all, or none among what is. */
  ghost predicate WithoutReference(image: seq<byte>, r: Raw, ws: seq<Written>, padding: nat, layout: Layout,
                                   steps: nat)
  {
    || (r.Valid() && r.use == [])
    || (IsWritten(image, r, ws, padding, layout, steps)
        && forall w :: w in AllWritten(ws, layout, steps) ==> !w.References?)
  }

  lemma AllWellFormed(image: seq<byte>, r: Raw, ws: seq<Written>, padding: nat, layout: Layout, steps: nat)
    requires IsWritten(image, r, ws, padding, layout, steps)
    ensures r.Valid() && forall w :: w in AllWritten(ws, layout, steps) ==> WellFormed(w)
  {
    hide WellFormed, PrintEntry, Holds, EntriesOf, AreaEntries, Inline;
    VisitGoesAsPlanned(image, layout, Inline(EntriesOf(ws)), steps);
  }

  lemma NoneWritten(ws: seq<Written>)
    requires forall w :: w in ws ==> WellFormed(w) && !w.References?
    ensures FirstExtensions(EntriesOf(ws)) == []
  {
    hide ValuesFit, PrintData;
    forall k | 0 <= k < |ws|
      ensures !EntriesOf(ws)[k].Extensions?
    {
      assert ws[k] in ws;
    }
    NoExtensions(EntriesOf(ws));
  }

  lemma NothingRegistered(image: seq<byte>, enc: Encoding, r: Raw, ws: seq<Written>, padding: nat,
                          layout: Layout, steps: nat)
    requires WithoutReference(image, r, ws, padding, layout, steps)
    ensures r.Valid()
    ensures RawMeaning(image, enc, r).Some? ==> RawMeaning(image, enc, r).value.meta.extensions == []
  {
    hide BuildNode, DecodeIdentifier, Meaning, IsWritten, AllWritten, WellFormed, EntriesOf, FirstExtensions;
    var name := DecodeIdentifier(enc, r.id);
    if IsWritten(image, r, ws, padding, layout, steps) {
      AllWellFormed(image, r, ws, padding, layout, steps);
    }
    if name.Ok? {
      if r.use == [] {
        PlainRecordMeans(image, enc, r, name.value);
        NoExtensions([]);
        KeepsExtensions(r.HeaderIn(enc), name.value, []);
      } else {
        BuiltFromAll(image, enc, r, name.value, ws, padding, layout, steps);
        NoneWritten(AllWritten(ws, layout, steps));
        KeepsExtensions(r.HeaderIn(enc), name.value, EntriesOf(AllWritten(ws, layout, steps)));
      }
    }
  }

  /** The first `ER` entry written for the record registers an extension, and the record is that of a directory. */
  ghost predicate WithReference(image: seq<byte>, enc: Encoding, r: Raw, ws: seq<Written>, padding: nat, layout: Layout,
                                steps: nat, k: nat)
  {
    && IsWritten(image, r, ws, padding, layout, steps) && r.flags / 2 % 2 == 1
    && var all := AllWritten(ws, layout, steps);
       && k < |all| && all[k].References?
       && RawMeaning(image, enc, r).Some?
  }

  lemma {:induction false} SomeExtensions(es: seq<Entry>, k: nat)
    requires k < |es| && es[k].Extensions?
    requires forall e :: e in es && e.Extensions? ==> e.extensions != []
    ensures FirstExtensions(es) != []
    decreases k
  {
    if k > 0 && !es[0].Extensions? {
      SomeExtensions(es[1..], k - 1);
    }
  }

  lemma ReferencesRegister(ws: seq<Written>, k: nat)
    requires (forall w :: w in ws ==> WellFormed(w)) && k < |ws| && ws[k].References?
    ensures FirstExtensions(EntriesOf(ws)) != []
  {
    hide ValuesFit, PrintData, Registered;
    var es := EntriesOf(ws);
    forall e | e in es && e.Extensions?
      ensures e.extensions != []
    {
      var j :| 0 <= j < |es| && es[j] == e;
      assert ws[j] in ws;
    }
    SomeExtensions(es, k);
  }

  lemma DirectoryByFlag(h: Header, id: Text, es: seq<Entry>)
    requires h.flags / 2 % 2 == 1 && BuildNode(h, id, es).Ok?
    ensures BuildNode(h, id, es).value.Directory? && BuildNode(h, id, es).value.meta.inode == FirstInode(es)
  {
    hide AltName, LinkTarget, FirstAttributes, FirstExtensions, FirstChild;
    FirstsFound(es);
    assert h.IsDirectory() by { assert (h.flags as int) / 2 % 2 == 1; }
  }

  /** The serial number of the first `PX` entry, if it has one */
  function FirstInode(es: seq<Entry>): Option<u32> {
    var px := FirstOf(es, IsPX);
    if px.Some? then px.value.inode else None
  }

  lemma SomethingRegistered(image: seq<byte>, enc: Encoding, r: Raw, ws: seq<Written>, padding: nat,
                            layout: Layout, steps: nat, k: nat)
    requires r.Valid() && WithReference(image, enc, r, ws, padding, layout, steps, k)
    ensures var n := RawMeaning(image, enc, r);
            && n.Some? && n.value.Directory? && n.value.meta.extensions != []
            && n.value.meta.inode == FirstInode(EntriesOf(AllWritten(ws, layout, steps)))
  {
    hide BuildNode, DecodeIdentifier, Meaning, IsWritten, AllWritten, WellFormed, EntriesOf, FirstExtensions;
    hide FirstInode;
    var name := DecodeIdentifier(enc, r.id);
    var es := EntriesOf(AllWritten(ws, layout, steps));
    AllWellFormed(image, r, ws, padding, layout, steps);
    BuiltFromAll(image, enc, r, name.value, ws, padding, layout, steps);
    ReferencesRegister(AllWritten(ws, layout, steps), k);
    KeepsExtensions(r.HeaderIn(enc), name.value, es);
    FlagKept(r.flags);
    DirectoryByFlag(r.HeaderIn(enc), name.value, es);
  }

  // ---- the root that is chosen ----

  lemma NamedIsRoot(t: Volume.Table)
    ensures RootOf(t) == Named(t)
  {
  }

  /** The first entry of a packed directory is what its first record stands for. */
  lemma FirstOfPacked(image: seq<byte>, dir: Header, blocks: seq<seq<Raw>>)
    requires Packed(image, dir, blocks)
    ensures blocks[0] != [] && blocks[0][0].Valid()
    ensures FirstEntry(image, dir) == RawMeaning(image, dir.encoding, blocks[0][0])
  {
    hide RawMeaning, EntryAt;
    PackedBlock(image, dir, blocks, 0);
    StepAtRecord(image, dir, blocks, 0, 0);
    assert Offset(blocks, 0, 0) == 0;
  }

  /** Without a reference in the first record of the primary root, the supplementary directory is the root. */
  lemma SupplementaryIsRoot(image: seq<byte>, v: Volume.Volume, blocks: seq<seq<Raw>>, ws: seq<Written>,
                            padding: nat, layout: Layout, steps: nat)
    requires v.supplementary.Some? && Packed(image, v.primary.root, blocks) && blocks[0] != []
    requires WithoutReference(image, blocks[0][0], ws, padding, layout, steps)
    ensures Root(image, v) == Named(v.supplementary.value) && Generates(image, v)
  {
    hide RawMeaning, WithoutReference, FirstEntry;
    FirstOfPacked(image, v.primary.root, blocks);
    NothingRegistered(image, v.primary.root.encoding, blocks[0][0], ws, padding, layout, steps);
    NamedIsRoot(v.supplementary.value);
  }

  /** With a registered one the primary directory is, and numbers are generated unless it has a serial number. */
  lemma PrimaryIsRoot(image: seq<byte>, v: Volume.Volume, blocks: seq<seq<Raw>>, ws: seq<Written>,
                      padding: nat, layout: Layout, steps: nat, k: nat)
    requires Packed(image, v.primary.root, blocks) && blocks[0] != [] && blocks[0][0].Valid()
    requires WithReference(image, v.primary.root.encoding, blocks[0][0], ws, padding, layout, steps, k)
    ensures Root(image, v) == Named(v.primary)
    ensures Generates(image, v) <==> FirstInode(EntriesOf(AllWritten(ws, layout, steps))).None?
  {
    hide RawMeaning, WithReference, FirstEntry, FirstInode;
    FirstOfPacked(image, v.primary.root, blocks);
    SomethingRegistered(image, v.primary.root.encoding, blocks[0][0], ws, padding, layout, steps, k);
    NamedIsRoot(v.primary);
  }

  /**
   * A server that is set up without faults on a volume with a supplementary descriptor, when the first
   * record of the primary root is printed without an `ER` entry: it serves the directory of the
   * supplementary descriptor, under generated numbers.
   */
  method MountWithoutReference(dev: Device, ghost v: Volume.Volume, ghost blocks: seq<seq<Raw>>, ghost ws: seq<Written>,
                               ghost padding: nat, ghost layout: Layout, ghost steps: nat)
    returns (r: Result<Server.Server>)
    requires Volume.Scan(dev.image, 16, None, None) == Ok(v) && v.supplementary.Some?
    requires Packed(dev.image, v.primary.root, blocks) && blocks[0] != []
    requires WithoutReference(dev.image, blocks[0][0], ws, padding, layout, steps)
    modifies dev
    ensures dev.served >= old(dev.served) && (old(dev.Quiet(MountCost(dev.image))) ==> dev.CalmSince(old(dev.served)))
    ensures r.Ok? ==> fresh(r.value) && r.value.Valid() && r.value.dev == dev && r.value.openFiles == map[]
    ensures dev.CalmSince(old(dev.served)) ==>
              && MountCost(dev.image) == Finite(dev.served - old(dev.served))
              && (r.Ok? ==> r.value.Abs() == FirstState(Named(v.supplementary.value)) && r.value.generates)
              && (r.Ok? <==> !EntryPanics(dev.image, v.primary.root, 0)
                             && EntryAt(dev.image, v.supplementary.value.root, 0).Some?)
  {
    hide Volume.Scan, Packed, WithoutReference, EntryAt, EntryPanics, FirstState, MountCost, Root, Generates, Named;
    hide Proper;
    SupplementaryIsRoot(dev.image, v, blocks, ws, padding, layout, steps);
    RootHasHeader(v.supplementary.value);
    r := Mount(dev);
  }

  lemma RootHasHeader(t: Volume.Table)
    ensures Named(t).header == t.root
  {
  }

  /**
   * The same when that record is printed with an `ER` entry that registers Rock Ridge: it serves the
   * directory of the primary descriptor, whether there is a supplementary one or not, under serial numbers exactly if
   * the record's first `PX` entry has one.
   */
  method MountWithReference(dev: Device, ghost v: Volume.Volume, ghost blocks: seq<seq<Raw>>, ghost ws: seq<Written>,
                            ghost padding: nat, ghost layout: Layout, ghost steps: nat, ghost k: nat)
    returns (r: Result<Server.Server>)
    requires Volume.Scan(dev.image, 16, None, None) == Ok(v)
    requires Packed(dev.image, v.primary.root, blocks) && blocks[0] != [] && blocks[0][0].Valid()
    requires WithReference(dev.image, v.primary.root.encoding, blocks[0][0], ws, padding, layout, steps, k)
    modifies dev
    ensures dev.served >= old(dev.served) && (old(dev.Quiet(MountCost(dev.image))) ==> dev.CalmSince(old(dev.served)))
    ensures r.Ok? ==> fresh(r.value) && r.value.Valid() && r.value.dev == dev && r.value.openFiles == map[]
    ensures dev.CalmSince(old(dev.served)) ==>
              && MountCost(dev.image) == Finite(dev.served - old(dev.served))
              && r.Ok? && r.value.Abs() == FirstState(Named(v.primary))
              && (r.value.generates <==> FirstInode(EntriesOf(AllWritten(ws, layout, steps))).None?)
  {
    hide Volume.Scan, Packed, WithReference, EntryAt, EntryPanics, FirstState, MountCost, Root, Generates, Named;
    hide Proper, RawMeaning;
    PrimaryIsRoot(dev.image, v, blocks, ws, padding, layout, steps, k);
    FirstIsRead(dev.image, v.primary.root, blocks, ws, padding, layout, steps, k);
    RootHasHeader(v.primary);
    r := Mount(dev);
  }

  lemma FirstIsRead(image: seq<byte>, dir: Header, blocks: seq<seq<Raw>>, ws: seq<Written>,
                    padding: nat, layout: Layout, steps: nat, k: nat)
    requires Packed(image, dir, blocks) && blocks[0] != [] && blocks[0][0].Valid()
    requires WithReference(image, dir.encoding, blocks[0][0], ws, padding, layout, steps, k)
    ensures EntryAt(image, dir, 0).Some? && !EntryPanics(image, dir, 0)
  {
    hide Packed, RawMeaning, EntryAt, EntryPanics;
    FirstOfPacked(image, dir, blocks);
    EntryHasBlock(image, dir, 0);
  }
}
