/**
 Setting up the server: opening the volume, choosing a root directory, and deciding whether inode
 numbers are generated.
 */
module Mounting {
  import opened Base
  import opened Record
  import opened DirectoryEntry
  import opened BlockDevice
  import opened Walk
  import opened Directory
  import opened ServerState
  import Volume
  import Server

  /** The root directory that a descriptor names */
  function RootOf(t: Volume.Table): Node {
    NewDirectory(t.root, Meta(None, None, None, None, [], false), t.rootId)
  }

  /** The first entry of a directory of the image */
  ghost function FirstEntry(image: seq<byte>, dir: Header): Option<Node> {
    match EntryAt(image, dir, 0)
    case None => None
    case Some(item) => Some(item.node)
  }

  /** `is_rock_ridge` on an entry that is a directory; every known extension is one of Rock Ridge. */
  predicate NamesRockRidge(n: Node) {
    n.Directory? && n.meta.extensions != []
  }

  /** `is_rr`: the first entry of the primary root names a Rock Ridge extension. */
  ghost predicate IsRockRidge(image: seq<byte>, v: Volume.Volume) {
    FirstEntry(image, v.primary.root).Some? && NamesRockRidge(FirstEntry(image, v.primary.root).value)
  }

  /** `root`: the primary root with Rock Ridge, or else that of a supplementary descriptor, if there is one */
  ghost function Root(image: seq<byte>, v: Volume.Volume): Node {
    if !IsRockRidge(image, v) && v.supplementary.Some? then RootOf(v.supplementary.value) else RootOf(v.primary)
  }

  /** Inode numbers are generated unless there is Rock Ridge and the first entry has a serial number. */
  ghost predicate Generates(image: seq<byte>, v: Volume.Volume) {
    var first := FirstEntry(image, Root(image, v).header);
    !(IsRockRidge(image, v) && first.Some? && first.value.meta.inode.Some?)
  }

  /** The reads for the first entry of a directory */
  ghost function FirstCost(image: seq<byte>, dir: Header): Cost {
    NextCost(image, dir, START)
  }

  /** The reads for choosing the root and deciding about inode numbers */
  ghost function ChoiceCost(image: seq<byte>, v: Volume.Volume): Cost {
    Plus(FirstCost(image, v.primary.root),
         if EntryPanics(image, v.primary.root, 0) then Finite(0)
         else
           Plus(FirstCost(image, Root(image, v).header),
                if FirstEntry(image, Root(image, v).header).None? then Finite(0)
                else FirstCost(image, v.primary.root)))
  }

  /** The reads for setting up the server */
  ghost function MountCost(image: seq<byte>): Cost {
    Plus(Finite(Volume.ScanCost(image, 16)),
         match Volume.Scan(image, 16, None, None)
         case Err(_) => Finite(0)
         case Ok(v) => ChoiceCost(image, v))
  }

  /** `contents().next()` */
  method ReadFirst(dev: Device, dir: Header) returns (r: Result<Node>)
    modifies dev
    ensures dev.Spent(old(dev.served), FirstCost(dev.image, dir))
    ensures r.Ok? ==> FirstEntry(dev.image, dir) == Some(r.value)
    ensures dev.CalmSince(old(dev.served)) ==>
              && (r.Err? ==> FirstEntry(dev.image, dir).None?)
              && (r == Err(Panic) <==> EntryPanics(dev.image, dir, 0))
  {
    hide EntryAt, EntryPanics, NextCost, NextCursor, Listing, Complete, Caches, AllFull, Device.WholeBlocks;
    var it := new DirectoryIterator(dev, dir);
    EntriesAdvance(dev.image, dir);
    var next := it.Next();
    return next.value;
  }

  /** `is_rr`: an error is as good as no, unless it is a panic. */
  method ReadIsRockRidge(dev: Device, v: Volume.Volume) returns (r: Result<bool>)
    modifies dev
    ensures dev.Spent(old(dev.served), FirstCost(dev.image, v.primary.root))
    ensures r.Ok? && r.value ==> IsRockRidge(dev.image, v)
    ensures r.Err? ==> r.error == Panic
    ensures dev.CalmSince(old(dev.served)) ==>
              && (r.Err? <==> EntryPanics(dev.image, v.primary.root, 0))
              && (r.Ok? ==> r.value == IsRockRidge(dev.image, v))
  {
    hide FirstEntry, FirstCost, EntryPanics, AllFull, Device.WholeBlocks;
    var first := ReadFirst(dev, v.primary.root);
    if first == Err(Panic) {
      return Err(Panic);
    }
    return Ok(first.Ok? && NamesRockRidge(first.value));
  }

  /** Where nothing has gone wrong since `before`, nothing has since `here`, nor up to it. */
  lemma CalmAfter(dev: Device, before: nat, here: nat)
    requires before <= here <= dev.served
    ensures dev.CalmSince(before) ==> dev.CalmSince(here) && AllFull(dev.script, before, here)
  {
  }

  /** `root` */
  method ReadRoot(dev: Device, v: Volume.Volume) returns (r: Result<Node>)
    modifies dev
    ensures dev.Spent(old(dev.served), FirstCost(dev.image, v.primary.root))
    ensures r.Ok? ==> r.value == RootOf(v.primary) || Some(r.value) == MapRoot(v.supplementary)
    ensures r.Err? ==> r.error == Panic
    ensures dev.CalmSince(old(dev.served)) ==>
              && (r.Err? <==> EntryPanics(dev.image, v.primary.root, 0))
              && (r.Ok? ==> r.value == Root(dev.image, v))
  {
    hide FirstEntry, FirstCost, EntryPanics, AllFull, Device.WholeBlocks, RootOf, IsRockRidge;
    var rr := ReadIsRockRidge(dev, v);
    if rr.Err? {
      return Err(Panic);
    }
    return Ok(if !rr.value && v.supplementary.Some? then RootOf(v.supplementary.value) else RootOf(v.primary));
  }

  /** The root that a server has, and where it takes inode numbers from, whatever went wrong when it was set up */
  ghost predicate Proper(image: seq<byte>, v: Volume.Volume, root: Node, generates: bool) {
    && (root == RootOf(v.primary) || Some(root) == MapRoot(v.supplementary))
    && (generates ||
         (IsRockRidge(image, v) && FirstEntry(image, root.header).Some?
          && FirstEntry(image, root.header).value.meta.inode.Some?))
  }

  /** A server comes up when nothing goes wrong. */
  ghost predicate ComesUp(image: seq<byte>, v: Volume.Volume) {
    !EntryPanics(image, v.primary.root, 0) && FirstEntry(image, Root(image, v).header).Some?
  }

  /** The second part of `ISOFuse::new`: the root, its first entry, and whether inode numbers are generated */
  method Choose(dev: Device, v: Volume.Volume) returns (r: Result<(Node, bool)>)
    modifies dev
    ensures dev.served >= old(dev.served)
    ensures r.Ok? ==> Proper(dev.image, v, r.value.0, r.value.1)
    ensures r.Err? ==> r.error == Panic
    ensures old(dev.Quiet(ChoiceCost(dev.image, v))) ==> dev.CalmSince(old(dev.served))
    ensures dev.CalmSince(old(dev.served)) ==>
              && ChoiceCost(dev.image, v) == Finite(dev.served - old(dev.served))
              && (r.Ok? ==> r.value == (Root(dev.image, v), Generates(dev.image, v)))
              && (r.Ok? <==> ComesUp(dev.image, v))
  {
    hide FirstEntry, FirstCost, EntryPanics, AllFull, Device.WholeBlocks, RootOf, Root, IsRockRidge, MapRoot;
    ghost var before, cost := dev.served, ChoiceCost(dev.image, v);
    ghost var enough := dev.Quiet(cost);
    var root := ReadRoot(dev, v);
    if enough {
      dev.LastedSince(before, cost);
    }
    if root.Err? {
      return Err(Panic);
    }
    ghost var asked := dev.served;
    var slashdot := ReadFirst(dev, root.value.header);
    CalmAfter(dev, before, asked);
    if enough {
      dev.LastedSince(before, cost);
    }
    if slashdot.Err? {
      return Err(Panic);
    }
    ghost var looked := dev.served;
    var rr := ReadIsRockRidge(dev, v);
    CalmAfter(dev, before, looked);
    if enough {
      dev.LastedSince(before, cost);
    }
    if rr.Err? {
      return Err(Panic);
    }
    return Ok((root.value, !(rr.value && slashdot.value.meta.inode.Some?)));
  }

  /**
   * `ISOFuse::new`: with any faults, a server that is set up has the root of one of the two
   * descriptors, and takes inode numbers from the image only if the volume has Rock Ridge and the
   * root's first entry a serial number. If none of the reads made goes wrong, root and numbering are
   * those the image determines, and a server comes up exactly if the volume can be opened, the first
   * entry of the primary root does not make the reader panic, and that of the root chosen can be read.
   */
  method Mount(dev: Device) returns (r: Result<Server.Server>)
    modifies dev
    ensures dev.served >= old(dev.served)
    ensures r.Ok? ==>
              && Volume.Scan(dev.image, 16, None, None).Ok?
              && fresh(r.value) && r.value.Valid() && r.value.dev == dev && r.value.openFiles == map[]
              && ROOT in r.value.inodes && r.value.Abs() == FirstState(r.value.inodes[ROOT])
              && Proper(dev.image, Volume.Scan(dev.image, 16, None, None).value, r.value.inodes[ROOT],
                        r.value.generates)
    ensures old(dev.Quiet(MountCost(dev.image))) ==> dev.CalmSince(old(dev.served))
    ensures dev.CalmSince(old(dev.served)) ==>
              && MountCost(dev.image) == Finite(dev.served - old(dev.served))
              && match Volume.Scan(dev.image, 16, None, None)
                 case Err(e) => r == Err(e)
                 case Ok(v) =>
                   && (r.Ok? ==>
                         && r.value.Abs() == FirstState(Root(dev.image, v))
                         && r.value.generates == Generates(dev.image, v))
                   && (r.Ok? <==> ComesUp(dev.image, v))
                   && (r.Err? ==> r.error == Panic)
  {
    hide FirstEntry, ChoiceCost, Volume.Scan, Volume.ScanCost, AllFull, Device.WholeBlocks, Root, Generates, ComesUp;
    hide Proper;
    ghost var before, cost := dev.served, MountCost(dev.image);
    ghost var enough := dev.Quiet(cost);
    var volume := Volume.Open(dev);
    if enough {
      dev.LastedSince(before, cost);
    }
    if volume.Err? {
      return Err(volume.error);
    }
    ghost var mounted := dev.served;
    if enough {
      AllFullWithin(dev.script, before, mounted, before + cost.value, before + cost.value);
    }
    var chosen := Choose(dev, volume.value);
    CalmAfter(dev, before, mounted);
    if enough {
      AllFullWithin(dev.script, before, before, dev.served, before + cost.value);
    }
    if chosen.Err? {
      return Err(chosen.error);
    }
    var server := new Server.Server(dev, chosen.value.0, chosen.value.1);
    return Ok(server);
  }

  function MapRoot(t: Option<Volume.Table>): Option<Node> {
    if t.None? then None else Some(RootOf(t.value))
  }
}
