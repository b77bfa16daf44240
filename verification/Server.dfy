/**
 The FUSE server over an opened volume, which answers every request as the protocol says.
 */
module Server {
  import opened Base
  import opened Strings
  import opened Record
  import opened DirectoryEntry
  import opened BlockDevice
  import opened Walk
  import opened Directory
  import opened Lookup
  import opened Files
  import opened ServerState
  import opened Protocol

  // ---- one listing call ----

  /** The tables after some entries have been handed out */
  ghost predicate Taken(generates: bool, s: State, items: seq<Item>, entries: seq<Dirent>, s': State) {
    && AllHaveNumbers(generates, items) && entries == Dirents(generates, s.inodeNumber, items)
    && s' == s.(inodes := BindAll(generates, s.inodeNumber, s.inodes, items),
                inodeNumber := CounterAfter(generates, s.inodeNumber, |items|))
    && s'.inodeNumber <= U64_MAX
  }

  lemma NothingTaken(generates: bool, s: State)
    requires s.inodeNumber <= U64_MAX
    ensures Taken(generates, s, [], [], s)
  {
  }

  lemma OneMoreTaken(generates: bool, s: State, items: seq<Item>, entries: seq<Dirent>, s': State, item: Item, ino: nat,
                     s'': State)
    requires Taken(generates, s, items, entries, s') && HasNumber(generates, item.node)
    requires ino == NumberFor(generates, s'.inodeNumber, item.node)
    requires s'' == s'.(inodes := if IsDots(item.node) then s'.inodes else s'.inodes[ino := item.node],
                        inodeNumber := CounterAfter(generates, s'.inodeNumber, 1))
    requires s''.inodeNumber <= U64_MAX
    ensures Taken(generates, s, items + [item], entries + [Dirent(ino, Cookie(item.next), item.node)], s'')
  {
    OneMoreListed(generates, s.inodeNumber, s.inodes, items, item);
  }

  /** A listing request for an open directory: the world and the tables it meets */
  datatype Call = Call(world: World, tables: State, fh: nat, cookie: nat, room: nat) {
    ghost predicate Opened() {
      fh in tables.directories
    }

    ghost function Dir(): Header
      requires Opened()
    {
      tables.directories[fh].header
    }

    /** The entries that the call can come past */
    ghost function Listed(): seq<Item>
      requires Opened()
    {
      ListedAfter(world.image, Dir(), cookie)
    }

    ghost function Next(here: Cursor): Cursor
      requires Opened()
    {
      NextCursor(world.image, Dir(), here)
    }

    ghost function At(here: Cursor): Option<Item>
      requires Opened() && here.next.Some?
    {
      EntryAt(world.image, Dir(), here.next.value)
    }
  }

  /** The call has got past `m` entries, has handed out those that are shown, and stands at a cursor. */
  ghost predicate GotTo(c: Call, m: nat, entries: seq<Dirent>, here: Cursor, s': State) {
    && c.Opened() && m <= |c.Listed()|
    && (forall j :: 0 <= j < m ==> Passes(c.world.generates, c.tables.inodeNumber, c.room, c.Listed(), j))
    && here == CursorAfter(c.world.image, c.Dir(), Cursor(None, Some(c.cookie)), m)
    && Taken(c.world.generates, c.tables, Shown(c.Listed()[..m]), entries, s')
  }

  lemma GotToStart(c: Call)
    requires c.Opened() && c.tables.inodeNumber <= U64_MAX
    ensures GotTo(c, 0, [], Cursor(None, Some(c.cookie)), c.tables)
  {
    hide ListedAfter, NextCursor;
    assert c.Listed()[..0] == [];
    NoneShown();
    NothingTaken(c.world.generates, c.tables);
  }

  lemma GotSomeRoom(c: Call, m: nat, entries: seq<Dirent>, here: Cursor, s': State)
    requires GotTo(c, m, entries, here, s')
    ensures c.Opened() && |entries| <= c.room && s'.inodeNumber <= U64_MAX
    ensures |Shown(c.Listed()[..m])| == |entries|
    ensures s'.inodeNumber == CounterAfter(c.world.generates, c.tables.inodeNumber, |entries|)
  {
    hide ListedAfter, CursorAfter, Passes, Shown, BindAll;
    PassedFit(c.world.generates, c.tables.inodeNumber, c.room, c.Listed(), m);
  }

  /** The entry at the cursor, if it can be read, is the next one of the walk, which goes on after it. */
  lemma GotToNext(c: Call, m: nat, entries: seq<Dirent>, here: Cursor, s': State)
    requires GotTo(c, m, entries, here, s') && here.next.Some? && c.At(here).Some?
    ensures var item, dir := c.At(here).value, c.Dir();
            && m < |c.Listed()| && c.Listed()[m] == item
            && c.Next(here) == Cursor(Some(here.next.value / BLOCK), item.next)
            && c.Next(here) == CursorAfter(c.world.image, dir, Cursor(None, Some(c.cookie)), m + 1)
            && (item.next.Some? ==> Distance(item.next.value, Limit(dir)) < Distance(here.next.value, Limit(dir)))
            && (item.next.Some? ==> item.next.value < 0x8000_0000_0000_0000)
  {
    hide EntryAt, Listing, Taken, Passes, Limit;
    var dir := c.Dir();
    EntriesAdvance(c.world.image, dir);
    var step, limit := Entries(c.world.image, dir), Limit(dir);
    EntryHasBlock(c.world.image, dir, here.next.value);
    CursorPast(c.world.image, dir, None, c.cookie, m);
    WalkedPast(step, limit, c.cookie, m);
    CookieFits(dir, step, here.next.value);
    assert AdvancesAt(step, limit, here.next.value);
    ListingStarts(step, limit, here.next.value);
  }

  /** One entry on: a relocated one is passed over. */
  lemma GotPast(c: Call, m: nat, entries: seq<Dirent>, here: Cursor, s': State)
    requires GotTo(c, m, entries, here, s') && here.next.Some? && c.At(here).Some?
    requires c.At(here).value.node.meta.relocated && s'.inodeNumber != U64_MAX
    ensures GotTo(c, m + 1, entries, c.Next(here), s')
  {
    hide EntryAt, ListedAfter, Taken, CursorAfter, NextCursor, Shown;
    GotToNext(c, m, entries, here, s');
    GotSomeRoom(c, m, entries, here, s');
    OneMoreShown(c.Listed(), m);
    assert Shown(c.Listed()[..m]) + [] == Shown(c.Listed()[..m]);
    assert Passes(c.world.generates, c.tables.inodeNumber, c.room, c.Listed(), m);
  }

  /** One entry on: one that is shown is handed out and bound. */
  lemma GotOneMore(c: Call, m: nat, entries: seq<Dirent>, here: Cursor, s': State, ino: nat, s'': State)
    requires GotTo(c, m, entries, here, s') && here.next.Some? && c.At(here).Some?
    requires |entries| < c.room && s'.inodeNumber != U64_MAX
    requires var node := c.At(here).value.node;
             && !node.meta.relocated && HasNumber(c.world.generates, node)
             && ino == NumberFor(c.world.generates, s'.inodeNumber, node)
             && s'' == s'.(inodes := if IsDots(node) then s'.inodes else s'.inodes[ino := node],
                           inodeNumber := CounterAfter(c.world.generates, s'.inodeNumber, 1))
             && s''.inodeNumber <= U64_MAX
    ensures var item := c.At(here).value;
            GotTo(c, m + 1, entries + [Dirent(ino, Cookie(item.next), item.node)], c.Next(here), s'')
  {
    hide EntryAt, ListedAfter, Taken, CursorAfter, NextCursor, Shown, IsDots;
    GotToNext(c, m, entries, here, s');
    GotSomeRoom(c, m, entries, here, s');
    OneMoreShown(c.Listed(), m);
    assert Passes(c.world.generates, c.tables.inodeNumber, c.room, c.Listed(), m);
    OneMoreTaken(c.world.generates, c.tables, Shown(c.Listed()[..m]), entries, s', c.At(here).value, ino, s'');
  }

  lemma CallReplies(c: Call, m: nat, entries: seq<Dirent>, here: Cursor, quiet: bool, reply: Reply, s': State)
    requires GotTo(c, m, entries, here, s') && (reply.Listed? ==> reply.entries == entries)
    requires Stops(c.world.(quiet := quiet), c.Dir(), here, s'.inodeNumber, |entries| == c.room, reply)
    ensures Lists(c.world.(quiet := quiet), c.tables, c.fh, c.cookie, c.room, reply, s')
  {
    hide ListedAfter, CursorAfter, Passes, Shown, BindAll, Dirents, Stops;
    GotSomeRoom(c, m, entries, here, s');
    assert ListsSome(c.world.(quiet := quiet), c.tables, c.Dir(), c.cookie, c.room, m, reply, s');
  }

  /** A call stops at the end of the directory, and with the counter at its end. */
  lemma StopsThere(w: World, dir: Header, here: Cursor, counter: nat, full: bool, entries: seq<Dirent>)
    ensures here.next.None? ==> Stops(w, dir, here, counter, full, Listed(entries))
    ensures here.next.Some? && counter == U64_MAX ==> Stops(w, dir, here, counter, full, Failed(ENFILE))
  {
    hide EntryAt, EntryFails, EntryPanics, AreasDue, NextCost;
  }

  /** An error of the reader is one that the call may end with. */
  lemma ErrorStops(w: World, dir: Header, here: Cursor, counter: nat, full: bool, error: Failure)
    requires here.next.Some? && counter != U64_MAX
    requires var at := here.next.value;
             && ErrorExplained(w.image, dir, at, NextCost(w.image, dir, here), error)
             && (w.quiet ==>
                   && EntryAt(w.image, dir, at).None? && NextCost(w.image, dir, here).Finite?
                   && (error == Panic <==> EntryPanics(w.image, dir, at)))
    ensures Stops(w, dir, here, counter, full, if error == Panic then Crashed else Failed(EINVAL))
  {
    hide EntryAt, EntryCost, EntryPanics, AreasDue;
    CachedOrNot(w.image, dir, here.cached, here.next.value);
  }

  lemma AnswersAtOnce(w: World, s: State, fh: nat, cookie: int, room: nat)
    ensures fh !in s.directories || cookie < -1 ==> Lists(w, s, fh, cookie, room, Failed(EINVAL), s)
    ensures fh in s.directories && cookie == -1 ==> Lists(w, s, fh, cookie, room, Listed([]), s)
  {
  }

  /** The reads that a listing still takes once the next entry is read */
  ghost function RestOfListing(image: seq<byte>, generates: bool, next: nat, dir: Header, c: Cursor, room: int): Cost
    requires c.next.Some?
  {
    var entry := EntryAt(image, dir, c.next.value);
    var after := Cursor(Some(c.next.value / BLOCK), if entry.Some? then entry.value.next else None);
    if room < 0 || entry.None? then Finite(0)
    else if entry.value.node.meta.relocated then ListCostFrom(image, generates, next, dir, after, room)
    else if !HasNumber(generates, entry.value.node) || room == 0 then Finite(0)
    else ListCostFrom(image, generates, CounterAfter(generates, next, 1), dir, after, room - 1)
  }

  /** The first read of a listing, and what is still to come after it */
  lemma ListCostFirst(image: seq<byte>, generates: bool, next: nat, dir: Header, c: Cursor, room: nat)
    requires c.next.Some? && next != U64_MAX
    ensures NextCost(image, dir, c) == EntryCost(image, dir, c.cached, c.next.value)
    ensures ListCostFrom(image, generates, next, dir, c, room)
         == Plus(NextCost(image, dir, c), RestOfListing(image, generates, next, dir, c, room))
  {
    hide EntryAt, EntryCost;
    EntriesAdvance(image, dir);
    EntryHasBlock(image, dir, c.next.value);
    assert AdvancesAt(Entries(image, dir), Limit(dir), c.next.value);
    assert Entries(image, dir)(c.next.value) == EntryAt(image, dir, c.next.value);
  }

  lemma NothingToList(image: seq<byte>, generates: bool, next: nat, dir: Header, c: Cursor, room: nat)
    requires c.next.None? || next == U64_MAX
    ensures ListCostFrom(image, generates, next, dir, c, room) == Finite(0)
  {
  }

  lemma CostsNothing(image: seq<byte>, generates: bool, s: State, fh: nat, cookie: i64, room: nat)
    requires fh !in s.directories || cookie < 0
    ensures RequestCost(image, generates, s, ListDirectory(fh, cookie, room)) == Finite(0)
  {
    hide ListCost;
  }

  lemma ListRequestCost(image: seq<byte>, generates: bool, s: State, fh: nat, cookie: i64, room: nat)
    requires fh in s.directories && cookie >= 0
    ensures RequestCost(image, generates, s, ListDirectory(fh, cookie, room))
         == ListCostFrom(image, generates, s.inodeNumber, s.directories[fh].header, Cursor(None, Some(cookie)), room)
  {
    hide ListCostFrom;
  }

  /** Every offset that a walk over a directory hands out fits a cookie. */
  lemma CookieFits(dir: Header, step: Stepper, at: nat)
    requires Advances(step, Limit(dir))
    ensures step(at).Some? && step(at).value.next.Some? ==> step(at).value.next.value < 0x8000_0000_0000_0000
  {
    assert AdvancesAt(step, Limit(dir), at);
  }

  lemma CallBreaksOff(c: Call, m: nat, entries: seq<Dirent>, here: Cursor, w: World, error: Failure, s': State)
    requires GotTo(c, m, entries, here, s') && w == c.world.(quiet := w.quiet)
    requires here.next.Some? && s'.inodeNumber != U64_MAX
    requires var at := here.next.value;
             && ErrorExplained(w.image, c.Dir(), at, NextCost(w.image, c.Dir(), here), error)
             && (w.quiet ==>
                   && EntryAt(w.image, c.Dir(), at).None? && NextCost(w.image, c.Dir(), here).Finite?
                   && (error == Panic <==> EntryPanics(w.image, c.Dir(), at)))
    ensures Lists(w, c.tables, c.fh, c.cookie, c.room, if error == Panic then Crashed else Failed(EINVAL), s')
  {
    hide EntryAt, EntryPanics, ErrorExplained, NextCost, Stops, Lists, Taken, Passes, ListedAfter, CursorAfter, Shown;
    ErrorStops(w, c.Dir(), here, s'.inodeNumber, |entries| == c.room, error);
    CallReplies(c, m, entries, here, w.quiet, if error == Panic then Crashed else Failed(EINVAL), s');
  }

  /** A positional read: seek to the offset, then read into a buffer of that size. */
  method ReadAt(file: FileReader, offset: nat, size: u32) returns (r: Result<seq<byte>>)
    requires file.Valid() && offset < 0x8000_0000_0000_0000
    modifies file, file.buf, file.dev
    ensures file.Valid() && file.dev.served >= old(file.dev.served)
    ensures old(file.Sound()) && Trusty(file.dev.script) ==>
              file.Sound() && (r.Ok? ==> ShowsFile(file.dev.image, file.start, offset, r.value))
    ensures r.Ok? ==> |r.value| == ReadCount(file.size, offset, size)
    ensures file.dev.served <= old(file.dev.served) + BlocksRead(file.size, offset, size)
    ensures r.Err? <==> file.dev.LastFailed(old(file.dev.served))
  {
    hide ShowsFile, Agrees, Trusty, BlocksRead, AllFull;
    var sought := file.Seek(FromStart(offset));
    if sought.Err? {
      return Err(InvalidSeek);
    }
    var out := new byte[size](_ => 0);
    var count := file.Read(out);
    if count.Err? {
      return Err(count.error);
    }
    return Ok(out[..count.value]);
  }

  /** Where the open files lie */
  ghost function Extents(files: map<nat, FileReader>): map<nat, Extent> {
    map h | h in files :: Extent(files[h].start, files[h].size)
  }

  /** No two open files share a reader or a buffer. */
  ghost predicate Apart(files: map<nat, FileReader>) {
    forall g, h :: g in files && h in files && g != h ==> files[g] != files[h] && files[g].buf != files[h].buf
  }

  class Server {
    const dev: Device
    const generates: bool
    var inodes: map<nat, Node>
    var inodeNumber: nat
    var openFiles: map<nat, FileReader>
    var fileNumber: nat
    var openDirectories: map<nat, Node>
    var directoryNumber: nat

    ghost function Abs(): State
      reads this
    {
      State(inodes, inodeNumber, Extents(openFiles), fileNumber, openDirectories, directoryNumber)
    }

    /** What the answer to a request depends on, beside the tables, if nothing goes wrong, or if something may */
    ghost function Facing(quiet: bool): World {
      World(dev.image, generates, Trusty(dev.script), quiet)
    }

    /** The same by whether anything has gone wrong since there were that many reads */
    ghost function WorldSince(before: nat): World
      reads dev
    {
      Facing(dev.CalmSince(before))
    }

    /** The reads for the answer to a request */
    ghost function CostOf(request: Request): Cost
      reads this
    {
      RequestCost(dev.image, generates, Abs(), request)
    }

    /** The tables are in order, and the cached block of every open file is right unless a read spoilt it. */
    ghost predicate Valid()
      reads this, set h | h in openFiles :: openFiles[h], set h | h in openFiles :: openFiles[h].buf
    {
      && Inv(generates, Abs())
      && Apart(openFiles)
      && (forall h :: h in openFiles ==>
            openFiles[h].dev == dev && openFiles[h].Valid() && (Trusty(dev.script) ==> openFiles[h].Sound()))
      && (forall h :: h in openDirectories ==> openDirectories[h].Directory?)
    }

    lemma InvHolds()
      requires Valid()
      ensures Inv(generates, Abs()) && inodeNumber <= U64_MAX && fileNumber <= U64_MAX && directoryNumber <= U64_MAX
    {
    }

    /** `ISOFuse::new`, once the volume is open and its root known */
    constructor (dev: Device, root: Node, generates: bool)
      ensures this.dev == dev && this.generates == generates && Valid()
      ensures openFiles == map[] && Abs() == FirstState(root)
    {
      this.dev, this.generates := dev, generates;
      inodes, inodeNumber := map[ROOT := root], ROOT + 1;
      openFiles, fileNumber, openDirectories, directoryNumber := map[], 0, map[], 0;
    }

    /** `lookup` */
    method Lookup(parent: nat, name: Text) returns (reply: Reply)
      requires Valid()
      modifies this`inodes, this`inodeNumber, dev
      ensures Valid() && dev.served >= old(dev.served)
      ensures LooksUp(WorldSince(old(dev.served)), old(Abs()), parent, name, reply, Abs())
      ensures dev.SpentAtMost(old(dev.served), old(CostOf(LookupName(parent, name))))
    {
      hide Find, FindCost, EndsInPanic, ValidUtf8, Trusty, Agrees, Extents, AllFull, Device.WholeBlocks, BlocksRead;
      hide ListCost;
      if parent !in inodes {
        return Failed(EINVAL);
      }
      if !inodes[parent].Directory? {
        return Failed(ENOTDIR);
      }
      if inodeNumber == U64_MAX {
        return Failed(ENFILE);
      }
      if !ValidUtf8(name) {
        return Crashed;
      }
      var found := FindChild(dev, inodes[parent].header, name);
      if found == Err(Panic) {
        return Crashed;
      }
      if found.Err? || found.value.None? {
        return Failed(ENOENT);
      }
      var node := found.value.value;
      if !generates && node.meta.inode.None? {
        return Crashed;
      }
      var ino := if generates then inodeNumber else node.meta.inode.value;
      inodes := inodes[ino := node];
      if generates {
        inodeNumber := inodeNumber + 1;
      }
      return Entry(ino, node);
    }

    /** `forget` */
    method Forget(ino: nat)
      requires Valid()
      modifies this`inodes
      ensures Valid() && Abs() == old(Abs()).(inodes := old(inodes) - {ino})
    {
      inodes := inodes - {ino};
    }

    /** `open` */
    method Open(ino: nat) returns (reply: Reply)
      requires Valid()
      modifies this`openFiles, this`fileNumber
      ensures Valid() && Opens(old(Abs()), ino, reply, Abs())
      ensures forall h :: h in openFiles ==>
                || (h in old(openFiles) && openFiles[h] == old(openFiles)[h])
                || (fresh(openFiles[h]) && fresh(openFiles[h].buf))
    {
      hide Inv, Trusty, Agrees, Extents;
      if ino !in inodes {
        return Failed(EINVAL);
      }
      if !inodes[ino].File? {
        return Failed(EISDIR);
      }
      InvHolds();
      if fileNumber == U64_MAX {
        return Failed(ENFILE);
      }
      var reader := new FileReader(dev, inodes[ino].header.location, inodes[ino].header.size);
      var fh := KeepOpen(reader);
      return Opened(fh);
    }

    /** Enters a reader under the next file handle. */
    method KeepOpen(reader: FileReader) returns (fh: nat)
      requires Valid() && fileNumber < U64_MAX && reader.dev == dev && reader.Sound()
      requires forall h :: h in openFiles ==> openFiles[h] != reader && openFiles[h].buf != reader.buf
      modifies this`openFiles, this`fileNumber
      ensures Valid() && fh == old(fileNumber) && fileNumber == fh + 1
      ensures openFiles == old(openFiles)[fh := reader]
      ensures Extents(openFiles) == Extents(old(openFiles))[fh := Extent(reader.start, reader.size)]
    {
      hide Trusty, Agrees, AllFull;
      fh := fileNumber;
      openFiles := openFiles[fh := reader];
      fileNumber := fileNumber + 1;
      assert Extents(openFiles) == Extents(old(openFiles))[fh := Extent(reader.start, reader.size)];
    }

    /** `read` */
    method Read(fh: nat, offset: i64, size: u32) returns (reply: Reply)
      requires Valid()
      modifies dev, set h | h in openFiles && h == fh :: openFiles[h]
      modifies set h | h in openFiles && h == fh :: openFiles[h].buf
      ensures Valid() && Abs() == old(Abs()) && dev.served >= old(dev.served)
      ensures Reads(WorldSince(old(dev.served)), Abs(), fh, offset, size, reply)
      ensures dev.SpentAtMost(old(dev.served), old(CostOf(ReadFile(fh, offset, size))))
      ensures reply == Failed(EIO) <==> dev.LastFailed(old(dev.served))
    {
      hide Inv, Agrees, ShowsFile, Trusty, BlocksRead, Device.WholeBlocks;
      if offset < 0 {
        return Failed(EINVAL);
      }
      if fh !in openFiles {
        return Failed(EINVAL);
      }
      var bytes := ReadAt(openFiles[fh], offset, size);
      if bytes.Err? {
        return Failed(EIO);
      }
      return Data(bytes.value);
    }

    /** `release` */
    method Release(fh: nat) returns (reply: Reply)
      requires Valid()
      modifies this`openFiles
      ensures Valid() && openFiles == old(openFiles) - {fh}
      ensures reply == Closed(fh in old(Abs()).files) && Abs() == old(Abs()).(files := old(Abs()).files - {fh})
    {
      hide Trusty, Agrees;
      reply := if fh in openFiles then Empty else Failed(EINVAL);
      openFiles := openFiles - {fh};
      assert Extents(openFiles) == Extents(old(openFiles)) - {fh};
    }

    /** `opendir` */
    method OpenDirectory(ino: nat) returns (reply: Reply)
      requires Valid()
      modifies this`openDirectories, this`directoryNumber
      ensures Valid() && OpensDirectory(old(Abs()), ino, reply, Abs())
    {
      hide Trusty, Agrees, Extents;
      if ino !in inodes {
        return Failed(EINVAL);
      }
      if !inodes[ino].Directory? {
        return Failed(ENOTDIR);
      }
      if directoryNumber == U64_MAX {
        return Failed(ENFILE);
      }
      openDirectories := openDirectories[directoryNumber := inodes[ino]];
      directoryNumber := directoryNumber + 1;
      return Opened(directoryNumber - 1);
    }

    /** Binds an entry to the next generated number or to its own; `.` and `..` only use up a number. */
    method Remember(node: Node) returns (ino: nat)
      requires Valid() && inodeNumber < U64_MAX && HasNumber(generates, node)
      modifies this`inodes, this`inodeNumber
      ensures Valid() && inodeNumber <= U64_MAX
      ensures ino == NumberFor(generates, old(inodeNumber), node)
      ensures inodeNumber == CounterAfter(generates, old(inodeNumber), 1)
      ensures inodes == if IsDots(node) then old(inodes) else old(inodes)[ino := node]
    {
      hide Trusty, Agrees, Extents;
      ino := if generates then inodeNumber else node.meta.inode.value;
      if !IsDots(node) {
        inodes := inodes[ino := node];
      }
      if generates {
        inodeNumber := inodeNumber + 1;
      }
    }

    /**
     * The second half of the loop in `readdir`: passes over a relocated entry, and hands out any
     * other one, unless it has no number or there is no room for it.
     */
    method HandOut(item: Item, entries: seq<Dirent>, room: nat, ghost c: Call, ghost m: nat, ghost here: Cursor,
                   ghost quiet: bool)
      returns (end: Option<Reply>, more: seq<Dirent>)
      requires Valid() && inodeNumber < U64_MAX && c.world.generates == generates && c.room == room
      requires GotTo(c, m, entries, here, Abs()) && here.next.Some? && c.At(here) == Some(item)
      modifies this`inodes, this`inodeNumber
      ensures Valid()
      ensures end.Some? ==>
                && Lists(c.world.(quiet := quiet), c.tables, c.fh, c.cookie, room, end.value, Abs())
                && !item.node.meta.relocated && (!HasNumber(generates, item.node) || |entries| == room)
                && inodeNumber == old(inodeNumber)
      ensures end.None? ==>
                && GotTo(c, m + 1, more, c.Next(here), Abs())
                && if item.node.meta.relocated then more == entries && inodeNumber == old(inodeNumber)
                   else && HasNumber(generates, item.node) && |more| == |entries| + 1 <= room
                        && inodeNumber == CounterAfter(generates, old(inodeNumber), 1)
    {
      hide EntryAt, Valid, Extents, GotTo, Lists, IsDots, NextCursor;
      end, more := None, entries;
      GotToNext(c, m, entries, here, Abs());
      GotSomeRoom(c, m, entries, here, Abs());
      if item.node.meta.relocated {
        GotPast(c, m, entries, here, Abs());
        return;
      }
      if item.next.Some? && item.next.value >= 0x8000_0000_0000_0000 {
        assert false;
      }
      if !generates && item.node.meta.inode.None? {
        CallReplies(c, m, entries, here, quiet, Crashed, Abs());
        return Some(Crashed), entries;
      }
      if |entries| == room {
        CallReplies(c, m, entries, here, quiet, Listed(entries), Abs());
        return Some(Listed(entries)), entries;
      }
      ghost var before := Abs();
      var ino := Remember(item.node);
      GotOneMore(c, m, entries, here, before, ino, Abs());
      return None, entries + [Dirent(ino, Cookie(item.next), item.node)];
    }

    /** The reads that a listing still takes, with that much room left */
    ghost function StillToRead(dir: Header, here: Cursor, room: int): Cost
      reads this
    {
      if room < 0 then Endless else ListCostFrom(dev.image, generates, inodeNumber, dir, here, room)
    }

    /** One pass of the loop in `readdir`, with the counter not at its end */
    method ListOne(dir: Header, block: array<byte>, cached: Option<nat>, at: nat, entries: seq<Dirent>, room: nat,
                   ghost c: Call, ghost m: nat, ghost before: nat, ghost cost: Cost, ghost spent: nat)
      returns (end: Option<Reply>, now: Option<nat>, next: Option<nat>, more: seq<Dirent>, ghost spent': nat)
      requires Valid() && inodeNumber < U64_MAX && block.Length == BLOCK
      requires forall h :: h in openFiles ==> openFiles[h].buf != block
      requires Caches(dev.image, dir, block[..], cached, at / BLOCK)
      requires GotTo(c, m, entries, Cursor(cached, Some(at)), Abs())
      requires c.world == Facing(c.world.quiet) && c.Dir() == dir && c.room == room
      requires SearchedSoFar(dev, before, dev.served, cost, spent,
                             StillToRead(dir, Cursor(cached, Some(at)), room - |entries|))
      modifies this`inodes, this`inodeNumber, dev, block
      ensures Valid() && dev.served >= old(dev.served)
      ensures end.Some? ==>
                && Lists(WorldSince(before), c.tables, c.fh, c.cookie, room, end.value, Abs())
                && dev.Spent(before, cost)
      ensures end.None? ==>
                && GotTo(c, m + 1, more, Cursor(now, next), Abs())
                && SearchedSoFar(dev, before, dev.served, cost, spent',
                                 StillToRead(dir, Cursor(now, next), room - |more|))
                && (next.Some? ==>
                      && Caches(dev.image, dir, block[..], now, next.value / BLOCK)
                      && Distance(next.value, Limit(dir)) < Distance(at, Limit(dir)))
    {
      hide EntryAt, EntryPanics, Inv, NextOffset, Valid, Trusty, Extents, Lists, GotTo, Distance, Limit, BlockCount;
      hide NextCost, NextCursor, EntryCost, CachedAfter, ListCostFrom, Caches, AllFull, SearchedSoFar, Plus, Stops;
      hide ErrorExplained, Device.WholeBlocks, Advances, AdvancesAt, IsDots, Dirents, BindAll;
      end, next, more, spent' := None, None, entries, spent;
      ghost var here, served := Cursor(cached, Some(at)), dev.served;
      GotSomeRoom(c, m, entries, here, Abs());
      ghost var first, rest := NextCost(dev.image, dir, here), RestToList(dir, here, room - |entries|);
      ListCostFirst(dev.image, generates, inodeNumber, dir, here, room - |entries|);
      var read;
      read, now := ReadEntryAt(dev, dir, block, cached, at);
      SearchedMore(dev, before, served, cost, spent, first, rest);
      ghost var quiet := dev.CalmSince(before);
      if read.Err? {
        end := Some(if read.error == Panic then Crashed else Failed(EINVAL));
        CallBreaksOff(c, m, entries, here, WorldSince(before), read.error, Abs());
        return;
      }
      var item := read.value;
      next := item.next;
      GotToNext(c, m, entries, here, Abs());
      end, more := HandOut(item, entries, room, c, m, here, quiet);
      if next.Some? {
        CachesAny(dev.image, dir, block[..], now, next.value / BLOCK);
      }
      EntryCostIsFinite(dev.image, dir, cached, at);
      spent' := spent + first.value;
    }

    /** The reads that a listing still takes once the next entry is read */
    ghost function RestToList(dir: Header, here: Cursor, room: int): Cost
      requires here.next.Some?
      reads this
    {
      RestOfListing(dev.image, generates, inodeNumber, dir, here, room)
    }

    /** `readdir`, with any pattern of faults */
    method ReadDirectory(fh: nat, cookie: i64, room: nat) returns (reply: Reply)
      requires Valid()
      modifies this`inodes, this`inodeNumber, dev
      ensures Valid() && dev.served >= old(dev.served)
      ensures Lists(WorldSince(old(dev.served)), old(Abs()), fh, cookie, room, reply, Abs())
      ensures dev.Spent(old(dev.served), old(CostOf(ListDirectory(fh, cookie, room))))
    {
      hide Inv, Valid, Trusty, Extents, Lists, GotTo, Distance, Limit, BlockCount, SearchedSoFar, Plus;
      hide NextCost, NextCursor, EntryCost, ListCostFrom, RequestCost, Caches, AllFull, Device.WholeBlocks;
      hide Stops, CursorAfter;
      InvHolds();
      ghost var before, cost, w := dev.served, CostOf(ListDirectory(fh, cookie, room)), Facing(true);
      if fh !in openDirectories {
        AnswersAtOnce(WorldSince(before), Abs(), fh, cookie, room);
        CostsNothing(dev.image, generates, Abs(), fh, cookie, room);
        return Failed(EINVAL);
      }
      if cookie < 0 {
        AnswersAtOnce(WorldSince(before), Abs(), fh, cookie, room);
        CostsNothing(dev.image, generates, Abs(), fh, cookie, room);
        return if cookie == -1 then Listed([]) else Failed(EINVAL);
      }
      var dir := openDirectories[fh].header;
      ghost var c := Call(w, Abs(), fh, cookie, room);
      GotToStart(c);
      ListRequestCost(dev.image, generates, Abs(), fh, cookie, room);
      SearchBegins(dev, before, cost);
      var block := new byte[BLOCK](_ => 0);
      var cached, at: Option<nat>, entries := None, Some(cookie), [];
      ghost var m: nat, spent: nat := 0, 0;
      CachesAny(dev.image, dir, block[..], cached, cookie / BLOCK);
      while at.Some?
        invariant Valid() && dev.served >= before
        invariant fresh(block) && block.Length == BLOCK
        invariant at.Some? ==> Caches(dev.image, dir, block[..], cached, at.value / BLOCK)
        invariant GotTo(c, m, entries, Cursor(cached, at), Abs())
        invariant SearchedSoFar(dev, before, dev.served, cost, spent,
                                StillToRead(dir, Cursor(cached, at), room - |entries|))
        decreases if at.Some? then 1 + Distance(at.value, Limit(dir)) else 0
      {
        InvHolds();
        if inodeNumber == U64_MAX {
          reply := Failed(ENFILE);
          StopsThere(WorldSince(before), dir, Cursor(cached, at), inodeNumber, |entries| == room, entries);
          CallReplies(c, m, entries, Cursor(cached, at), dev.CalmSince(before), reply, Abs());
          GotSomeRoom(c, m, entries, Cursor(cached, at), Abs());
          NothingToList(dev.image, generates, inodeNumber, dir, Cursor(cached, at), room - |entries|);
          SearchEnds(dev, before, dev.served, cost, spent);
          return;
        }
        var end, now, next, more, spent' :=
          ListOne(dir, block, cached, at.value, entries, room, c, m, before, cost, spent);
        if end.Some? {
          return end.value;
        }
        cached, at, entries, m, spent := now, next, more, m + 1, spent';
      }
      reply := Listed(entries);
      StopsThere(WorldSince(before), dir, Cursor(cached, at), inodeNumber, |entries| == room, entries);
      CallReplies(c, m, entries, Cursor(cached, at), dev.CalmSince(before), reply, Abs());
      GotSomeRoom(c, m, entries, Cursor(cached, at), Abs());
      NothingToList(dev.image, generates, inodeNumber, dir, Cursor(cached, at), room - |entries|);
      SearchEnds(dev, before, dev.served, cost, spent);
    }

    /** `releasedir` */
    method ReleaseDirectory(fh: nat) returns (reply: Reply)
      requires Valid()
      modifies this`openDirectories
      ensures Valid() && reply == Closed(fh in old(openDirectories))
      ensures Abs() == old(Abs()).(directories := old(openDirectories) - {fh})
    {
      hide Trusty, Agrees, Extents;
      reply := if fh in openDirectories then Empty else Failed(EINVAL);
      openDirectories := openDirectories - {fh};
    }
  }

  // ---- any requests, one after the other ----

  /** Every open file was open before or was opened just now. */
  twostate predicate OnlyNewFiles(server: Server)
    reads server
  {
    forall h :: h in server.openFiles ==>
      || (h in old(server.openFiles) && server.openFiles[h] == old(server.openFiles)[h])
      || (fresh(server.openFiles[h]) && fresh(server.openFiles[h].buf))
  }

  lemma NoReadsDue(image: seq<byte>, generates: bool, s: State, request: Request)
    ensures !request.LookupName? && !request.ReadFile? && !request.ListDirectory? ==>
              RequestCost(image, generates, s, request) == Finite(0)
  {
    hide FindCost, ListCost, ValidUtf8, BlocksRead;
  }

  method Handle(server: Server, request: Request) returns (reply: Reply)
    requires server.Valid()
    modifies server, server.dev, set h | h in server.openFiles :: server.openFiles[h]
    modifies set h | h in server.openFiles :: server.openFiles[h].buf
    ensures server.Valid() && server.dev.served >= old(server.dev.served) && OnlyNewFiles(server)
    ensures Replies(server.WorldSince(old(server.dev.served)), old(server.Abs()), request, reply, server.Abs())
    ensures server.dev.SpentAtMost(old(server.dev.served), old(server.CostOf(request)))
  {
    hide Inv, LooksUp, Opens, OpensDirectory, Reads, Lists, Trusty, Agrees, Extents, RequestCost, Server.Valid;
    hide AllFull, Device.WholeBlocks;
    NoReadsDue(server.dev.image, server.generates, server.Abs(), request);
    match request {
      case LookupName(parent, name) => reply := server.Lookup(parent, name);
      case ForgetInode(ino) =>
        server.Forget(ino);
        reply := Empty;
      case OpenFile(ino) => reply := server.Open(ino);
      case ReadFile(fh, offset, size) => reply := server.Read(fh, offset, size);
      case CloseFile(fh) => reply := server.Release(fh);
      case OpenDirectory(ino) => reply := server.OpenDirectory(ino);
      case ListDirectory(fh, cookie, room) => reply := server.ReadDirectory(fh, cookie, room);
      case CloseDirectory(fh) => reply := server.ReleaseDirectory(fh);
    }
  }

  /** How many requests something has gone wrong with */
  function Troubled(calm: seq<bool>): nat {
    if calm == [] then 0 else Troubled(Init(calm)) + if Last(calm) then 0 else 1
  }

  /** Every reply is one that the protocol has, for a request that nothing went wrong with if it is a calm one. */
  ghost predicate Explained(w: World, states: seq<State>, requests: seq<Request>, replies: seq<Reply>,
                            calm: seq<bool>)
  {
    && |calm| == |replies| == |states| - 1 <= |requests|
    && forall k :: 0 <= k < |replies| ==>
         Replies(w.(quiet := calm[k]), states[k], requests[k], replies[k], states[k + 1])
  }

  lemma OneMoreExplained(w: World, states: seq<State>, requests: seq<Request>, replies: seq<Reply>, calm: seq<bool>,
                         reply: Reply, s: State, quiet: bool)
    requires Explained(w, states, requests, replies, calm) && |replies| < |requests|
    requires Replies(w.(quiet := quiet), Last(states), requests[|replies|], reply, s)
    ensures Explained(w, states + [s], requests, replies + [reply], calm + [quiet])
    ensures Troubled(calm + [quiet]) == Troubled(calm) + if quiet then 0 else 1
  {
    hide Replies;
    assert Init(calm + [quiet]) == calm;
  }

  /**
   * Any requests, one after the other, until all are answered or the server has crashed: what
   * happens is a run of the protocol, so no number is handed out twice and live ones keep their
   * meaning. On an image of whole blocks every read that goes wrong troubles at most one request: all
   * others are answered as ones that nothing goes wrong with. If as many of the coming reads as the
   * requests can take go well, it is a run without faults, and takes no more.
   */
  method Perform(server: Server, requests: seq<Request>, ghost budget: nat)
    returns (replies: seq<Reply>, ghost states: seq<State>, ghost calm: seq<bool>)
    requires server.Valid()
    modifies server, server.dev, set h | h in server.openFiles :: server.openFiles[h]
    modifies set h | h in server.openFiles :: server.openFiles[h].buf
    ensures server.Valid() && |replies| <= |requests| && server.dev.served >= old(server.dev.served)
    ensures IsRun(server.Facing(false), states, requests[..|replies|], replies)
    ensures states[0] == old(server.Abs()) && Last(states) == server.Abs()
    ensures |replies| == |requests| || (replies != [] && Last(replies).Crashed?)
    ensures forall k :: 0 <= k < |replies| - 1 ==> !replies[k].Crashed?
    ensures Explained(server.Facing(true), states, requests, replies, calm)
    ensures server.dev.WholeBlocks() ==>
              Troubled(calm) <= Faults(server.dev.script, old(server.dev.served), server.dev.served)
    ensures old(server.dev.Quiet(Finite(budget)))
              && Affordable(server.Facing(true), old(server.Abs()), requests, budget) ==>
              && IsRun(server.Facing(true), states, requests[..|replies|], replies)
              && server.dev.CalmSince(old(server.dev.served))
              && server.dev.served <= old(server.dev.served) + budget
    ensures var all := AllIssued(requests[..|replies|], replies);
            && Fresh(Map(FileRow, all), old(server.fileNumber))
            && Fresh(Map(DirectoryRow, all), old(server.directoryNumber))
            && (server.generates ==> Fresh(Map(InodeRow, all), old(server.inodeNumber)))
  {
    hide Inv, Replies, Trusty, Agrees, Fresh, Map, AllIssued, IsRun, Affordable, RequestCost, RunCost, Explained;
    hide AllFull, Faults, Device.WholeBlocks, Troubled, Performed, PerformedQuietly, Server.Valid;
    ghost var w, first, before := server.Facing(true), server.Abs(), server.dev.served;
    ghost var enough := server.dev.Quiet(Finite(budget)) && Affordable(w, first, requests, budget);
    server.InvHolds();
    replies, states, calm := HandleAll(server, requests, budget, enough);
    InTheEnd(w, first, server.Abs(), states, requests, replies, calm,
             Faults(server.dev.script, before, server.dev.served), server.dev.WholeBlocks());
    if enough {
      QuietInTheEnd(w, states, requests, replies, budget, server.dev.served - before);
    }
    NothingIssuedTwice(w.(quiet := false), states, requests[..|replies|], replies);
  }

  method HandleAll(server: Server, requests: seq<Request>, ghost budget: nat, ghost enough: bool)
    returns (replies: seq<Reply>, ghost states: seq<State>, ghost calm: seq<bool>)
    requires server.Valid()
    requires enough ==>
               && server.dev.Quiet(Finite(budget))
               && Affordable(server.Facing(true), server.Abs(), requests, budget)
    modifies server, server.dev, set h | h in server.openFiles :: server.openFiles[h]
    modifies set h | h in server.openFiles :: server.openFiles[h].buf
    ensures server.Valid() && server.dev.served >= old(server.dev.served)
    ensures |replies| == |requests| || (replies != [] && Last(replies).Crashed?)
    ensures forall k :: 0 <= k < |replies| - 1 ==> !replies[k].Crashed?
    ensures Performed(server.Facing(true), old(server.Abs()), server.Abs(), states, requests, replies, calm,
                      Faults(server.dev.script, old(server.dev.served), server.dev.served), server.dev.WholeBlocks())
    ensures enough ==>
              && server.dev.CalmSince(old(server.dev.served))
              && PerformedQuietly(server.Facing(true), states, requests, replies, budget,
                                  server.dev.served - old(server.dev.served))
  {
    hide Inv, Replies, Trusty, Agrees, IsRun, Affordable, RequestCost, RunCost, Explained;
    hide AllFull, Faults, Device.WholeBlocks, Troubled, Performed, PerformedQuietly, Server.Valid;
    replies, states, calm := [], [server.Abs()], [];
    ghost var w, first, before := server.Facing(true), server.Abs(), server.dev.served;
    server.InvHolds();
    PerformBegins(server.dev, w, first, requests, budget);
    while |replies| < |requests| && (replies == [] || !Last(replies).Crashed?)
      invariant server.Valid() && OnlyNewFiles(server) && server.dev.served >= before
      invariant |replies| <= |requests| && |states| == |replies| + 1 && states[0] == first
      invariant forall k :: 0 <= k < |replies| - 1 ==> !replies[k].Crashed?
      invariant Performed(w, first, server.Abs(), states, requests, replies, calm,
                          Faults(server.dev.script, before, server.dev.served), server.dev.WholeBlocks())
      invariant enough ==>
                  && server.dev.CalmSince(before)
                  && PerformedQuietly(w, states, requests, replies, budget, server.dev.served - before)
      decreases |requests| - |replies|
    {
      ghost var here, s := server.dev.served, server.Abs();
      ghost var faults := Faults(server.dev.script, before, here);
      InTheEnd(w, first, s, states, requests, replies, calm, faults, server.dev.WholeBlocks());
      if enough {
        NextCanBePaid(w, first, states, requests, replies, budget, here - before);
      }
      var reply := Handle(server, requests[|replies|]);
      ghost var undisturbed := server.dev.CalmSince(here);
      SinceThen(server.dev, before, here);
      if enough {
        server.dev.LastedSince(before, Finite(budget));
        PerformedMoreQuietly(w, first, states, requests, replies, budget, here - before, reply, server.Abs(),
                             server.dev.served - before);
      }
      PerformedMore(w, first, s, states, requests, replies, calm, faults, server.dev.WholeBlocks(), reply, server.Abs(),
                    undisturbed, Faults(server.dev.script, before, server.dev.served));
      replies, states, calm := replies + [reply], states + [server.Abs()], calm + [undisturbed];
    }
  }

  lemma InTheEnd(w: World, first: State, now: State, states: seq<State>, requests: seq<Request>, replies: seq<Reply>,
                 calm: seq<bool>, faults: nat, whole: bool)
    requires Performed(w, first, now, states, requests, replies, calm, faults, whole)
    ensures |replies| <= |requests| && |states| == |replies| + 1 && states[0] == first && Last(states) == now
    ensures IsRun(w.(quiet := false), states, requests[..|replies|], replies)
    ensures Explained(w, states, requests, replies, calm)
    ensures whole ==> Troubled(calm) <= faults
  {
    hide IsRun, Explained, Troubled;
  }

  lemma QuietInTheEnd(w: World, states: seq<State>, requests: seq<Request>, replies: seq<Reply>, budget: nat,
                      spent: nat)
    requires PerformedQuietly(w, states, requests, replies, budget, spent)
    ensures |replies| <= |requests| && IsRun(w, states, requests[..|replies|], replies) && spent <= budget
  {
    hide IsRun, RunCost;
  }

  /** What has been performed so far is a run of the protocol, and every fault has troubled one request at most. */
  ghost predicate Performed(w: World, first: State, now: State, states: seq<State>, requests: seq<Request>,
                            replies: seq<Reply>, calm: seq<bool>, faults: nat, whole: bool)
  {
    && |replies| <= |requests| && |states| == |replies| + 1 && states[0] == first && Last(states) == now
    && IsRun(w.(quiet := false), states, requests[..|replies|], replies)
    && Explained(w, states, requests, replies, calm)
    && (whole ==> Troubled(calm) <= faults)
  }

  /** It is a run without faults, and has taken no more reads than its requests may take. */
  ghost predicate PerformedQuietly(w: World, states: seq<State>, requests: seq<Request>, replies: seq<Reply>,
                                   budget: nat, spent: nat)
  {
    && |replies| <= |requests| && |states| == |replies| + 1
    && IsRun(w, states, requests[..|replies|], replies)
    && var cost := RunCost(w, states, requests, |replies|);
       cost.Finite? && spent <= cost.value <= budget
  }

  lemma PerformBegins(dev: Device, w: World, s: State, requests: seq<Request>, budget: nat)
    requires Inv(w.generates, s)
    ensures Performed(w, s, s, [s], requests, [], [], Faults(dev.script, dev.served, dev.served), dev.WholeBlocks())
    ensures PerformedQuietly(w, [s], requests, [], budget, 0) && dev.FaultFreeSince(dev.served)
  {
    hide Inv;
  }

  lemma PerformedMore(w: World, first: State, now: State, states: seq<State>, requests: seq<Request>,
                      replies: seq<Reply>, calm: seq<bool>, faults: nat, whole: bool,
                      reply: Reply, s: State, quiet: bool, faults': nat)
    requires Performed(w, first, now, states, requests, replies, calm, faults, whole) && |replies| < |requests|
    requires Replies(w.(quiet := quiet), now, requests[|replies|], reply, s)
    requires faults' >= faults && (!quiet && whole ==> faults' > faults)
    ensures Performed(w, first, s, states + [s], requests, replies + [reply], calm + [quiet], faults', whole)
  {
    hide Replies, IsRun, Troubled;
    var k := |replies|;
    assert requests[..k] + [requests[k]] == requests[..k + 1];
    RepliesAnyway(w.(quiet := quiet), now, requests[k], reply, s);
    RunGoesOn(w.(quiet := false), states, requests[..k], replies, requests[k], reply, s);
    OneMoreExplained(w, states, requests, replies, calm, reply, s, quiet);
  }

  lemma NextCanBePaid(w: World, first: State, states: seq<State>, requests: seq<Request>, replies: seq<Reply>,
                      budget: nat, spent: nat)
    requires PerformedQuietly(w, states, requests, replies, budget, spent) && |replies| < |requests|
    requires w.quiet && Affordable(w, first, requests, budget) && states[0] == first && NoPanic(replies)
    ensures var next := RequestCost(w.image, w.generates, Last(states), requests[|replies|]);
            next.Finite? && spent + next.value <= budget
  {
    hide Affordable, IsRun, RequestCost, RunCost;
    NextIsAffordable(w, first, requests, budget, states, replies);
  }

  lemma PerformedMoreQuietly(w: World, first: State, states: seq<State>, requests: seq<Request>, replies: seq<Reply>,
                             budget: nat, spent: nat, reply: Reply, s: State, spent': nat)
    requires PerformedQuietly(w, states, requests, replies, budget, spent) && |replies| < |requests|
    requires w.quiet && Affordable(w, first, requests, budget) && states[0] == first && NoPanic(replies)
    requires Replies(w, Last(states), requests[|replies|], reply, s)
    requires var next := RequestCost(w.image, w.generates, Last(states), requests[|replies|]);
             next.Finite? ==> spent' <= spent + next.value
    ensures PerformedQuietly(w, states + [s], requests, replies + [reply], budget, spent')
  {
    hide Affordable, IsRun, RequestCost, RunCost, Replies;
    var k := |replies|;
    NextIsAffordable(w, first, requests, budget, states, replies);
    assert requests[..k] + [requests[k]] == requests[..k + 1];
    RunGoesOn(w, states, requests[..k], replies, requests[k], reply, s);
    OneMoreCost(w, states, s, requests, k + 1);
  }

  // ---- a client that lists a directory ----

  /** The entries of a listing, as items of the walk */
  function Items(entries: seq<Dirent>): (items: seq<Item>) {
    Map((d: Dirent) => Item(d.node, Position(d.cookie)), entries)
  }

  lemma ItemsOfDirents(generates: bool, next: nat, items: seq<Item>)
    requires AllHaveNumbers(generates, items)
    ensures Items(Dirents(generates, next, items)) == items
  {
    hide Dirents;
    forall k | 0 <= k < |items|
      ensures Items(Dirents(generates, next, items))[k] == items[k]
    {
      DirentAt(generates, next, items, k);
    }
  }

  /** The entries got so far and those shown from the cookie on are all that are shown. */
  ghost predicate GotSoFar(image: seq<byte>, dir: Header, all: seq<Dirent>, cookie: int) {
    EntriesAdvance(image, dir);
    && -1 <= cookie < 0x8000_0000_0000_0000
    && ShownAfter(image, dir, 0) == Items(all) + ShownFrom(Entries(image, dir), Limit(dir), Position(cookie))
    && (WholeFrom(image, dir, 0) ==> CompleteFrom(Entries(image, dir), Limit(dir), Position(cookie)))
  }

  /** Entries can be given numbers, that many of them, before the counter is at its end. */
  predicate Numberable(generates: bool, next: nat, items: seq<Item>, count: nat) {
    AllHaveNumbers(generates, items) && CounterAfter(generates, next, count) < U64_MAX
  }

  /** Where the client goes on */
  function NextCookie(cookie: int, entries: seq<Dirent>): int {
    if entries == [] then cookie else Last(entries).cookie
  }

  /** A listing reply hands out the first of what is shown from the cookie on, as far as there is room. */
  lemma HandsOutMost(w: World, s: State, dir: Header, at: nat, room: nat, m: nat, reply: Reply, s': State)
    requires ListsSome(w, s, dir, at, room, m, reply, s') && reply.Listed?
    ensures var shown := ShownAfter(w.image, dir, at);
            var items := shown[..Min(room, |shown|)];
            && |reply.entries| == |items| && Items(reply.entries) == items
            && s'.inodeNumber == CounterAfter(w.generates, s.inodeNumber, |items|)
            && (items != [] ==>
                  && Last(reply.entries).node == Last(items).node
                  && Last(reply.entries).cookie == Cookie(Last(items).next))
  {
    hide ShownAfter, ListedAfter, WholeFrom, Dirents, BindAll, Map, ListsSome, Shown, Items;
    var n := HandedOut(w, s, dir, at, room, m, reply, s');
    var shown := ShownAfter(w.image, dir, at);
    ItemsOfDirents(w.generates, s.inodeNumber, shown[..n]);
    if n > 0 {
      DirentAt(w.generates, s.inodeNumber, shown[..n], n - 1);
    }
  }

  /** A listing reply accepts what is shown from the cookie on, as far as there is room. */
  lemma ReplyAccepts(w: World, s: State, fh: nat, cookie: int, room: nat, reply: Reply, s': State)
    requires fh in s.directories && -1 <= cookie < 0x8000_0000_0000_0000
    requires Lists(w, s, fh, cookie, room, reply, s') && reply.Listed?
    ensures var dir, items := s.directories[fh].header, Items(reply.entries);
            && Advances(Entries(w.image, dir), Limit(dir))
            && CallAccepts(Entries(w.image, dir), Limit(dir), Position(cookie), room, items)
            && Position(NextCookie(cookie, reply.entries)) == Resumption(Position(cookie), items)
            && -1 <= NextCookie(cookie, reply.entries) < 0x8000_0000_0000_0000
            && (CompleteFrom(Entries(w.image, dir), Limit(dir), Position(cookie)) ==>
                  CompleteFrom(Entries(w.image, dir), Limit(dir), Resumption(Position(cookie), items)))
    ensures s'.inodeNumber == CounterAfter(w.generates, s.inodeNumber, |reply.entries|)
  {
    hide Entries, Listing, Complete, Dirents, BindAll, Map, Advances, ListsSome, Shown, Items;
    var dir, entries := s.directories[fh].header, reply.entries;
    EntriesAdvance(w.image, dir);
    NoItems();
    if cookie >= 0 {
      var m: nat :| ListsSome(w, s, dir, cookie, room, m, reply, s');
      HandsOutMost(w, s, dir, cookie, room, m, reply, s');
      if entries != [] {
        ResumesWithin(Entries(w.image, dir), Limit(dir), cookie, |entries| - 1);
      }
    } else {
      NothingShown(Entries(w.image, dir), Limit(dir), 0);
    }
  }

  lemma NoItems()
    ensures Items([]) == []
  {
  }

  lemma CallContinues(w: World, s: State, fh: nat, all: seq<Dirent>, cookie: int, room: nat, reply: Reply, s': State)
    requires fh in s.directories && GotSoFar(w.image, s.directories[fh].header, all, cookie)
    requires Lists(w, s, fh, cookie, room, reply, s') && reply.Listed?
    ensures GotSoFar(w.image, s.directories[fh].header, all + reply.entries, NextCookie(cookie, reply.entries))
    ensures s'.inodeNumber == CounterAfter(w.generates, s.inodeNumber, |reply.entries|)
    ensures reply.entries == [] && room > 0 ==>
              Items(all + reply.entries) == ShownAfter(w.image, s.directories[fh].header, 0)
  {
    hide Entries, Listing, Complete, Shown, Lists, Map;
    var dir, entries := s.directories[fh].header, reply.entries;
    ReplyAccepts(w, s, fh, cookie, room, reply, s');
    var step, limit, at := Entries(w.image, dir), Limit(dir), Position(cookie);
    CallSplits(step, limit, at, room, Items(entries));
    assert Items(all + entries) == Items(all) + Items(entries);
    var rest := ShownFrom(step, limit, Resumption(at, Items(entries)));
    assert Items(all) + (Items(entries) + rest) == Items(all + entries) + rest;
    if entries == [] && room > 0 {
      assert ShownFrom(step, limit, at) == [];
    }
  }

  /** Whatever comes of a call, the counter moves by no more numbers than entries are shown. */
  lemma CounterMoves(w: World, s: State, fh: nat, all: seq<Dirent>, cookie: int, room: nat, reply: Reply, s': State)
    requires fh in s.directories && GotSoFar(w.image, s.directories[fh].header, all, cookie)
    requires Lists(w, s, fh, cookie, room, reply, s')
    ensures var shown := ShownAfter(w.image, s.directories[fh].header, 0);
            s.inodeNumber <= s'.inodeNumber <= CounterAfter(w.generates, s.inodeNumber, |shown|)
    ensures reply.Listed? || reply.Failed? || reply.Crashed?
  {
    hide Entries, Listing, Complete, Shown, Dirents, BindAll, Map, ListsSome;
    var dir := s.directories[fh].header;
    if cookie >= 0 {
      var m: nat :| ListsSome(w, s, dir, cookie, room, m, reply, s');
      var n := HandedOut(w, s, dir, cookie, room, m, reply, s');
      assert |ShownAfter(w.image, dir, 0)| == |all| + |ShownAfter(w.image, dir, cookie)|;
    }
  }

  /** When nothing goes wrong, and with numbers for all entries, a call of the client is answered with a listing. */
  lemma CallSucceeds(w: World, s: State, fh: nat, all: seq<Dirent>, cookie: int, room: nat, reply: Reply, s': State)
    requires fh in s.directories && GotSoFar(w.image, s.directories[fh].header, all, cookie)
    requires Lists(w, s, fh, cookie, room, reply, s') && w.quiet
    requires |all| <= |ShownAfter(w.image, s.directories[fh].header, 0)|
    requires var dir := s.directories[fh].header;
             var shown := ShownAfter(w.image, dir, 0);
             WholeFrom(w.image, dir, 0) && Numberable(w.generates, s.inodeNumber, shown, |shown| - |all|)
    ensures reply.Listed?
  {
    hide Entries, Listing, Complete, Shown, Dirents, BindAll, Map, ListsSome;
    var dir := s.directories[fh].header;
    if cookie >= 0 {
      var m: nat :| ListsSome(w, s, dir, cookie, room, m, reply, s');
      var n := HandedOut(w, s, dir, cookie, room, m, reply, s');
      var shown, whole := ShownAfter(w.image, dir, cookie), ShownAfter(w.image, dir, 0);
      assert |whole| == |all| + |shown|;
      if n < |shown| {
        assert whole[|all| + n] == shown[n];
      }
    }
  }

  /** The reads for a client that lists a directory from a cookie on, with these rooms, until a call comes back empty */
  ghost function SessionCost(
      image: seq<byte>, generates: bool, next: nat, dir: Header, cookie: int, rooms: seq<nat>): Cost
    decreases |rooms|
  {
    if rooms == [] || cookie < 0 then Finite(0)
    else
      var shown := ShownAfter(image, dir, cookie);
      var items := shown[..Min(rooms[0], |shown|)];
      Plus(ListCost(image, generates, next, dir, cookie, rooms[0]),
           if items == [] && rooms[0] > 0 then Finite(0)
           else SessionCost(image, generates, CounterAfter(generates, next, |items|), dir,
                            if items == [] then cookie else Cookie(Last(items).next), rooms[1..]))
  }

  lemma SessionNeedsCall(image: seq<byte>, generates: bool, s: State, fh: nat, cookie: i64, rooms: seq<nat>)
    requires fh in s.directories && rooms != []
    ensures var all := SessionCost(image, generates, s.inodeNumber, s.directories[fh].header, cookie, rooms);
            var call := RequestCost(image, generates, s, ListDirectory(fh, cookie, rooms[0]));
            all.Finite? ==> call.Finite? && call.value <= all.value
  {
    hide ListCost, ShownAfter, FindCost, BlocksRead, ValidUtf8;
  }

  /** One call of the session, and what is still to come after it */
  lemma SessionGoesOn(w: World, s: State, fh: nat, cookie: i64, rooms: seq<nat>, reply: Reply, s': State)
    requires fh in s.directories && cookie >= -1 && rooms != []
    requires Lists(w, s, fh, cookie, rooms[0], reply, s') && reply.Listed?
    ensures var dir := s.directories[fh].header;
            SessionCost(w.image, w.generates, s.inodeNumber, dir, cookie, rooms) ==
              Plus(RequestCost(w.image, w.generates, s, ListDirectory(fh, cookie, rooms[0])),
                   if reply.entries == [] && rooms[0] > 0 then Finite(0)
                   else SessionCost(w.image, w.generates, s'.inodeNumber, dir, NextCookie(cookie, reply.entries),
                                    rooms[1..]))
  {
    hide Lists, RequestCost, ListCost, ShownAfter, CounterAfter, Items, SessionCost;
    SessionSplits(w.image, w.generates, s, fh, cookie, rooms);
    ShownInCall(w, s, fh, cookie, rooms[0], reply, s');
  }

  lemma ListingCost(image: seq<byte>, generates: bool, s: State, fh: nat, cookie: i64, room: nat)
    requires fh in s.directories
    ensures RequestCost(image, generates, s, ListDirectory(fh, cookie, room)) ==
              if cookie < 0 then Finite(0)
              else ListCost(image, generates, s.inodeNumber, s.directories[fh].header, cookie, room)
  {
    hide ListCost, FindCost, BlocksRead, ValidUtf8;
  }

  lemma SessionSplits(image: seq<byte>, generates: bool, s: State, fh: nat, cookie: i64, rooms: seq<nat>)
    requires fh in s.directories && rooms != []
    ensures cookie < 0 ==>
              SessionCost(image, generates, s.inodeNumber, s.directories[fh].header, cookie, rooms) == Finite(0)
    ensures cookie < 0 ==> forall next: nat ::
              SessionCost(image, generates, next, s.directories[fh].header, cookie, rooms[1..]) == Finite(0)
    ensures cookie < 0 ==> RequestCost(image, generates, s, ListDirectory(fh, cookie, rooms[0])) == Finite(0)
    ensures cookie >= 0 ==>
              var dir := s.directories[fh].header;
              var shown := ShownAfter(image, dir, cookie);
              var items := shown[..Min(rooms[0], |shown|)];
              SessionCost(image, generates, s.inodeNumber, dir, cookie, rooms) ==
                Plus(RequestCost(image, generates, s, ListDirectory(fh, cookie, rooms[0])),
                     if items == [] && rooms[0] > 0 then Finite(0)
                     else SessionCost(image, generates, CounterAfter(generates, s.inodeNumber, |items|), dir,
                                      if items == [] then cookie else Cookie(Last(items).next), rooms[1..]))
  {
    hide ListCost, ShownAfter, CounterAfter, RequestCost, Limit, Cookie, Plus;
    ListingCost(image, generates, s, fh, cookie, rooms[0]);
  }

  /** A listing reply hands out the first of the entries shown from the cookie on. */
  lemma ShownInCall(w: World, s: State, fh: nat, cookie: i64, room: nat, reply: Reply, s': State)
    requires fh in s.directories && cookie >= -1
    requires Lists(w, s, fh, cookie, room, reply, s') && reply.Listed?
    ensures s'.inodeNumber == CounterAfter(w.generates, s.inodeNumber, |reply.entries|)
    ensures cookie < 0 ==> reply.entries == []
    ensures cookie >= 0 ==>
              var shown := ShownAfter(w.image, s.directories[fh].header, cookie);
              var items := shown[..Min(room, |shown|)];
              |items| == |reply.entries| && (items != [] ==> Cookie(Last(items).next) == Last(reply.entries).cookie)
    ensures reply.entries != [] ==> Last(reply.entries).cookie >= -1
  {
    hide Entries, Listing, Complete, Shown, Lists;
    var dir, entries := s.directories[fh].header, reply.entries;
    ReplyAccepts(w, s, fh, cookie, room, reply, s');
    EntriesAdvance(w.image, dir);
    NothingShown(Entries(w.image, dir), Limit(dir), 0);
    if cookie >= 0 && entries != [] {
      var items := Items(entries);
      assert items == ShownAfter(w.image, dir, cookie)[..Min(room, |ShownAfter(w.image, dir, cookie)|)];
      assert Last(items) == Item(Last(entries).node, Position(Last(entries).cookie));
      assert Last(entries).cookie == NextCookie(cookie, entries);
    }
  }

  /** The entries shown from the start of a directory can be numbered, and all its entries can be read. */
  ghost predicate Listable(image: seq<byte>, generates: bool, next: nat, dir: Header, count: nat) {
    WholeFrom(image, dir, 0) && Numberable(generates, next, ShownAfter(image, dir, 0), count)
  }

  /** One call of a client that has got some entries so far */
  method ListCall(server: Server, fh: nat, cookie: i64, rooms: seq<nat>, ghost all: seq<Dirent>) returns (reply: Reply)
    requires server.Valid() && fh in server.openDirectories && cookie >= -1 && rooms != []
    requires GotSoFar(server.dev.image, server.openDirectories[fh].header, all, cookie)
    modifies server`inodes, server`inodeNumber, server.dev
    ensures server.Valid()
    ensures server.dev.Spent(old(server.dev.served), old(server.CostOf(ListDirectory(fh, cookie, rooms[0]))))
    ensures var shown := ShownAfter(server.dev.image, server.openDirectories[fh].header, 0);
            && server.inodeNumber <= CounterAfter(server.generates, old(server.inodeNumber), |shown|)
            && |all| <= |shown|
            && (&& server.dev.CalmSince(old(server.dev.served))
                && Listable(server.dev.image, server.generates, old(server.inodeNumber),
                            server.openDirectories[fh].header, |shown| - |all|)
                ==> reply.Listed?)
    ensures reply.Listed? ==>
              var dir, entries := server.openDirectories[fh].header, reply.entries;
              && GotSoFar(server.dev.image, dir, all + entries, NextCookie(cookie, entries))
              && server.inodeNumber == CounterAfter(server.generates, old(server.inodeNumber), |entries|)
              && (entries == [] && rooms[0] > 0 ==> Items(all + entries) == ShownAfter(server.dev.image, dir, 0))
              && SessionCost(server.dev.image, server.generates, old(server.inodeNumber), dir, cookie, rooms) ==
                   Plus(old(server.CostOf(ListDirectory(fh, cookie, rooms[0]))),
                        if entries == [] && rooms[0] > 0 then Finite(0)
                        else SessionCost(server.dev.image, server.generates, server.inodeNumber, dir,
                                         NextCookie(cookie, entries), rooms[1..]))
  {
    hide Entries, Listing, Complete, Shown, Inv, GotSoFar, Lists, ShownAfter, WholeFrom, Items, SessionCost;
    hide RequestCost, AllFull, Device.WholeBlocks, Server.Valid, Numberable, Plus;
    ghost var s, before := server.Abs(), server.dev.served;
    ghost var image, dir := server.dev.image, server.openDirectories[fh].header;
    GotNoMore(image, dir, all, cookie);
    reply := server.ReadDirectory(fh, cookie, rooms[0]);
    ghost var w, s' := server.WorldSince(before), server.Abs();
    CounterMoves(w, s, fh, all, cookie, rooms[0], reply, s');
    if w.quiet && Listable(image, w.generates, s.inodeNumber, dir, |ShownAfter(image, dir, 0)| - |all|) {
      CallSucceeds(w, s, fh, all, cookie, rooms[0], reply, s');
    }
    if reply.Listed? {
      CallContinues(w, s, fh, all, cookie, rooms[0], reply, s');
      SessionGoesOn(w, s, fh, cookie, rooms, reply, s');
    }
  }

  /** The numbers that so many calls can take, each for so many entries */
  function NumbersTaken(calls: nat, shown: nat): nat {
    calls * shown
  }

  /** With faults: a client that has made `k` calls has got an entry in each that no fault spoilt. */
  predicate KeepsUp(generates: bool, first: nat, next: nat, shown: nat, k: nat, got: nat, faults: nat) {
    next <= CounterAfter(generates, first, NumbersTaken(k, shown)) && got + faults >= k
  }

  /** Without faults: what it has got and read, and what it still takes */
  ghost predicate OnSchedule(image: seq<byte>, generates: bool, dir: Header, first: nat, next: nat, spent: nat,
                             cost: Cost, k: nat, got: nat, cookie: int, rooms: seq<nat>)
  {
    var rest := SessionCost(image, generates, next, dir, cookie, rooms);
    && got >= k && next == CounterAfter(generates, first, got)
    && rest.Finite? && cost.Finite? && spent + rest.value <= cost.value
  }

  lemma SessionBegins(image: seq<byte>, generates: bool, dir: Header, first: nat, cost: Cost, rooms: seq<nat>)
    requires cost == SessionCost(image, generates, first, dir, 0, rooms)
    ensures cost.Finite? ==> OnSchedule(image, generates, dir, first, first, 0, cost, 0, 0, 0, rooms)
    ensures forall shown: nat :: KeepsUp(generates, first, first, shown, 0, 0, 0)
  {
    hide SessionCost;
  }

  lemma CountUp(a: nat, b: nat, n: nat)
    requires a < b
    ensures NumbersTaken(a + 1, n) == NumbersTaken(a, n) + n <= NumbersTaken(b, n)
  {
    assert (b - a - 1) * n >= 0;
  }

  lemma CountersLeft(generates: bool, first: nat, next: nat, p: nat, q: nat, shown: nat, got: nat)
    requires next <= CounterAfter(generates, first, p) && p + shown <= q && got <= shown
    requires CounterAfter(generates, first, q) < U64_MAX
    ensures CounterAfter(generates, next, shown - got) < U64_MAX
    ensures CounterAfter(generates, next, shown) <= CounterAfter(generates, first, p + shown)
  {
  }

  /** A call among many still finds numbers for all entries. */
  lemma NumbersLeft(image: seq<byte>, generates: bool, dir: Header, first: nat, next: nat, k: nat, got: nat,
                    faults: nat, calls: nat)
    requires var shown := |ShownAfter(image, dir, 0)|;
             && KeepsUp(generates, first, next, shown, k, got, faults) && k < calls && got <= shown
             && Listable(image, generates, first, dir, NumbersTaken(calls, shown))
    ensures var shown := |ShownAfter(image, dir, 0)|;
            && Listable(image, generates, next, dir, shown - got)
            && CounterAfter(generates, next, shown) <= CounterAfter(generates, first, NumbersTaken(k + 1, shown))
  {
    hide ShownAfter, WholeFrom, AllHaveNumbers, CounterAfter, NumbersTaken;
    var shown := |ShownAfter(image, dir, 0)|;
    CountUp(k, calls, shown);
    CountersLeft(generates, first, next, NumbersTaken(k, shown), NumbersTaken(calls, shown), shown, got);
  }

  lemma NumbersLeftCalmly(image: seq<byte>, generates: bool, dir: Header, first: nat, got: nat)
    requires Listable(image, generates, first, dir, |ShownAfter(image, dir, 0)|) && got <= |ShownAfter(image, dir, 0)|
    ensures Listable(image, generates, CounterAfter(generates, first, got), dir, |ShownAfter(image, dir, 0)| - got)
  {
    hide ShownAfter, WholeFrom, AllHaveNumbers;
  }

  /** A call on schedule: there are reads and numbers for it. */
  lemma CallOnSchedule(image: seq<byte>, generates: bool, s: State, fh: nat, first: nat, spent: nat, cost: Cost, k: nat,
                       got: nat, cookie: i64, rooms: seq<nat>)
    requires fh in s.directories && rooms != []
    requires OnSchedule(image, generates, s.directories[fh].header, first, s.inodeNumber, spent, cost, k, got, cookie,
                        rooms)
    requires var dir := s.directories[fh].header;
             got <= |ShownAfter(image, dir, 0)| && Listable(image, generates, first, dir, |ShownAfter(image, dir, 0)|)
    ensures var dir := s.directories[fh].header;
            var call := RequestCost(image, generates, s, ListDirectory(fh, cookie, rooms[0]));
            && call.Finite? && cost.Finite? && spent + call.value <= cost.value
            && Listable(image, generates, s.inodeNumber, dir, |ShownAfter(image, dir, 0)| - got)
  {
    hide SessionCost, RequestCost, ShownAfter, Listable;
    SessionNeedsCall(image, generates, s, fh, cookie, rooms);
    NumbersLeftCalmly(image, generates, s.directories[fh].header, first, got);
  }

  /** The next one is on schedule, too. */
  lemma NextOnSchedule(image: seq<byte>, generates: bool, dir: Header, first: nat, next: nat, spent: nat, cost: Cost,
                       k: nat, got: nat, cookie: int, rooms: seq<nat>, call: Cost, more: nat, next': nat, spent': nat,
                       cookie': int, rooms': seq<nat>)
    requires OnSchedule(image, generates, dir, first, next, spent, cost, k, got, cookie, rooms) && call.Finite?
    requires SessionCost(image, generates, next, dir, cookie, rooms)
          == Plus(call, SessionCost(image, generates, next', dir, cookie', rooms'))
    requires more > 0 && next' == CounterAfter(generates, next, more) && spent' <= spent + call.value
    ensures OnSchedule(image, generates, dir, first, next', spent', cost, k + 1, got + more, cookie', rooms')
  {
    hide SessionCost;
  }

  lemma StillKeepsUp(generates: bool, first: nat, next: nat, shown: nat, k: nat, got: nat, faults: nat, next': nat,
                     got': nat, faults': nat)
    requires KeepsUp(generates, first, next, shown, k, got, faults)
    requires next' <= CounterAfter(generates, next, shown)
    requires CounterAfter(generates, next, shown) <= CounterAfter(generates, first, NumbersTaken(k + 1, shown))
    requires got' + faults' > got + faults
    ensures KeepsUp(generates, first, next', shown, k + 1, got', faults')
  {
    hide NumbersTaken;
  }

  /**
   * A client that lists a directory call by call, each from the cookie of the last entry it got and
   * with any room, repeating calls that fail: over all calls it gets the shown entries in order,
   * none lost or repeated, and once a call with room comes back empty it has them all. On a
   * directory that can be read to its end and whose entries can be given numbers, with room in every
   * call: every read that goes wrong costs at most one call, so that the end is reached, unless the
   * server panics, if there are more calls than entries and faults together; and if as many of the
   * coming reads as the calls take go well, it is reached with one more call than entries.
   */
  method ListAll(server: Server, fh: nat, rooms: seq<nat>) returns (all: seq<Dirent>, ended: bool, crashed: bool)
    requires server.Valid() && fh in server.openDirectories
    modifies server`inodes, server`inodeNumber, server.dev
    ensures server.Valid() && server.dev.served >= old(server.dev.served)
    ensures Items(all) <= ShownAfter(server.dev.image, server.openDirectories[fh].header, 0)
    ensures ended ==> Items(all) == ShownAfter(server.dev.image, server.openDirectories[fh].header, 0)
    ensures var dir := server.openDirectories[fh].header;
            var shown := ShownAfter(server.dev.image, dir, 0);
            server.dev.WholeBlocks()
            && Listable(server.dev.image, server.generates, old(server.inodeNumber), dir,
                        NumbersTaken(|rooms|, |shown|))
            && (forall k :: 0 <= k < |rooms| ==> rooms[k] > 0)
            && |rooms| > |shown| + Faults(server.dev.script, old(server.dev.served), server.dev.served) ==>
              ended || crashed
    ensures var dir := server.openDirectories[fh].header;
            var shown := ShownAfter(server.dev.image, dir, 0);
            var cost := SessionCost(server.dev.image, server.generates, old(server.inodeNumber), dir, 0, rooms);
            old(server.dev.Quiet(cost))
            && Listable(server.dev.image, server.generates, old(server.inodeNumber), dir, |shown|)
            && (forall k :: 0 <= k < |rooms| ==> rooms[k] > 0) && |rooms| > |shown| ==>
              && ended && server.dev.CalmSince(old(server.dev.served))
              && server.dev.served <= old(server.dev.served) + cost.value
  {
    hide Entries, Listing, Complete, Shown, Inv, GotSoFar, Lists, Numberable, ShownAfter, WholeFrom, Items;
    hide SessionCost, RequestCost, AllFull, Faults, Device.WholeBlocks, Server.Valid, Listable, NumbersTaken;
    hide OnSchedule, KeepsUp, Extents, CounterAfter, NextCookie, Plus, Trusty, Agrees;
    ghost var image, dir, before := server.dev.image, server.openDirectories[fh].header, server.dev.served;
    ghost var generates, first, shown := server.generates, server.inodeNumber, ShownAfter(image, dir, 0);
    ghost var cost := SessionCost(image, generates, first, dir, 0, rooms);
    ghost var roomy := forall k :: 0 <= k < |rooms| ==> rooms[k] > 0;
    ghost var steady := roomy && server.dev.WholeBlocks()
                        && Listable(image, generates, first, dir, NumbersTaken(|rooms|, |shown|));
    ghost var fine := roomy && server.dev.Quiet(cost) && Listable(image, generates, first, dir, |shown|);
    ListingBegins(image, dir);
    SessionBegins(image, generates, dir, first, cost, rooms);
    FaultsCount(server.dev.script, before, before);
    NoneYet(server.dev, before);
    assert rooms[0..] == rooms;
    var cookie, k := 0, 0;
    all, ended, crashed := [], false, false;
    while k < |rooms| && !ended && !crashed
      invariant k <= |rooms| && server.Valid() && server.dev.served >= before
      invariant server.openDirectories[fh].header == dir
      invariant ListedSoFar(server, dir, first, before, cost, rooms, k, all, cookie, ended, crashed, steady, fine)
    {
      cookie, all, ended, crashed := ListOnce(server, fh, rooms, k, all, cookie, first, before, cost, steady, fine);
      k := k + 1;
    }
    SessionIsOver(server, dir, first, before, cost, rooms, k, all, cookie, ended, crashed, steady, fine);
  }

  /** How a client stands that has made `k` calls */
  ghost predicate ListedSoFar(server: Server, dir: Header, first: nat, before: nat, cost: Cost, rooms: seq<nat>, k: nat,
                              all: seq<Dirent>, cookie: int, ended: bool, crashed: bool, steady: bool, fine: bool)
    requires k <= |rooms|
    reads server, server.dev
  {
    var image, shown := server.dev.image, ShownAfter(server.dev.image, dir, 0);
    && server.dev.served >= before && GotSoFar(image, dir, all, cookie)
    && (ended ==> Items(all) == shown)
    && (steady && !ended && !crashed ==>
          KeepsUp(server.generates, first, server.inodeNumber, |shown|, k, |all|,
                  Faults(server.dev.script, before, server.dev.served)))
    && (fine ==>
          server.dev.CalmSince(before) && !crashed && cost.Finite? && server.dev.served <= before + cost.value)
    && (fine && !ended ==>
          OnSchedule(image, server.generates, dir, first, server.inodeNumber, server.dev.served - before, cost, k,
                     |all|, cookie, rooms[k..]))
  }

  /** One call more, and how the client stands after it */
  method ListOnce(server: Server, fh: nat, rooms: seq<nat>, k: nat, all: seq<Dirent>, cookie: int, ghost first: nat,
                  ghost before: nat, ghost cost: Cost, ghost steady: bool, ghost fine: bool)
    returns (cookie': int, all': seq<Dirent>, ended: bool, crashed: bool)
    requires server.Valid() && fh in server.openDirectories && k < |rooms|
    requires var dir := server.openDirectories[fh].header;
             var shown := ShownAfter(server.dev.image, dir, 0);
             && ListedSoFar(server, dir, first, before, cost, rooms, k, all, cookie, false, false, steady, fine)
             && (steady || fine ==> rooms[k] > 0)
             && (steady ==>
                   && server.dev.WholeBlocks()
                   && Listable(server.dev.image, server.generates, first, dir, NumbersTaken(|rooms|, |shown|)))
             && (fine ==>
                   && cost.Finite? && AllFull(server.dev.script, before, before + cost.value)
                   && Listable(server.dev.image, server.generates, first, dir, |shown|))
    modifies server`inodes, server`inodeNumber, server.dev
    ensures server.Valid()
    ensures ListedSoFar(server, server.openDirectories[fh].header, first, before, cost, rooms, k + 1, all', cookie',
                        ended, crashed, steady, fine)
  {
    hide Entries, Listing, Complete, Shown, Inv, GotSoFar, Lists, Numberable, ShownAfter, WholeFrom, Items;
    hide SessionCost, RequestCost, AllFull, Faults, Device.WholeBlocks, Server.Valid, Listable, NumbersTaken;
    hide OnSchedule, KeepsUp, Extents, CounterAfter, Plus, Trusty, Agrees;
    ghost var image, dir, generates := server.dev.image, server.openDirectories[fh].header, server.generates;
    ghost var here, next, shown := server.dev.served, server.inodeNumber, ShownAfter(image, dir, 0);
    GotNoMore(image, dir, all, cookie);
    assert rooms[k..][0] == rooms[k] && rooms[k..][1..] == rooms[k + 1..];
    ghost var call := server.CostOf(ListDirectory(fh, cookie, rooms[k]));
    ghost var faults := Faults(server.dev.script, before, here);
    if steady {
      NumbersLeft(image, generates, dir, first, next, k, |all|, faults, |rooms|);
    }
    if fine {
      CallOnSchedule(image, generates, server.Abs(), fh, first, here - before, cost, k, |all|, cookie, rooms[k..]);
    }
    var reply := ListCall(server, fh, cookie, rooms[k..], all);
    SinceThen(server.dev, before, here);
    if fine {
      server.dev.LastedSince(before, cost);
    }
    cookie', all', ended, crashed := cookie, all, false, reply.Crashed?;
    if reply.Listed? {
      cookie' := NextCookie(cookie, reply.entries);
      ended := rooms[k] > 0 && reply.entries == [];
      all' := all + reply.entries;
    }
    if steady && !ended && !crashed {
      StillKeepsUp(generates, first, next, |shown|, k, |all|, faults, server.inodeNumber, |all'|,
                   Faults(server.dev.script, before, server.dev.served));
    }
    if fine && !ended {
      NextOnSchedule(image, generates, dir, first, next, here - before, cost, k, |all|, cookie, rooms[k..], call,
                     |reply.entries|, server.inodeNumber, server.dev.served - before, cookie', rooms[k + 1..]);
    }
  }

  lemma SessionIsOver(server: Server, dir: Header, first: nat, before: nat, cost: Cost, rooms: seq<nat>, k: nat,
                      all: seq<Dirent>, cookie: int, ended: bool, crashed: bool, steady: bool, fine: bool)
    requires k <= |rooms|
    requires ListedSoFar(server, dir, first, before, cost, rooms, k, all, cookie, ended, crashed, steady, fine)
    ensures var shown := ShownAfter(server.dev.image, dir, 0);
            && server.dev.served >= before
            && Items(all) <= shown && (ended ==> Items(all) == shown)
            && (steady && !ended && !crashed ==>
                  k <= |shown| + Faults(server.dev.script, before, server.dev.served))
            && (fine ==>
                  && server.dev.CalmSince(before) && !crashed
                  && cost.Finite? && server.dev.served <= before + cost.value && (!ended ==> k <= |shown|))
  {
    hide ShownAfter, GotSoFar, Items, SessionCost, AllFull, Device.WholeBlocks, Faults, NumbersTaken;
    GotNoMore(server.dev.image, dir, all, cookie);
  }

  lemma NoneYet(dev: Device, before: nat)
    requires before == dev.served
    ensures dev.FaultFreeSince(before)
  {
  }

  lemma ListingBegins(image: seq<byte>, dir: Header)
    ensures GotSoFar(image, dir, [], 0)
  {
    hide Entries, Listing, Complete, Shown;
  }

  lemma GotNoMore(image: seq<byte>, dir: Header, all: seq<Dirent>, cookie: int)
    requires GotSoFar(image, dir, all, cookie)
    ensures Items(all) <= ShownAfter(image, dir, 0) && |all| <= |ShownAfter(image, dir, 0)|
    ensures -1 <= cookie < 0x8000_0000_0000_0000
  {
    hide Entries, Listing, Complete, Shown;
  }
}
