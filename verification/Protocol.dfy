/**
 The file system protocol: requests, replies, and what each reply says about the image and the
 tables of the server; runs of requests and what holds over all of them.
 */
module Protocol {
  import opened Base
  import opened Strings
  import opened Record
  import opened DirectoryEntry
  import opened BlockDevice
  import opened Walk
  import opened Directory
  import opened Lookup
  import opened Files
  import opened ServerState

  datatype Errno = EINVAL | EIO | EISDIR | ENFILE | ENOENT | ENOTDIR

  /** One accepted `reply.add`: the cookie is the offset to resume from, or -1 at the end. */
  datatype Dirent = Dirent(ino: nat, cookie: int, node: Node)

  datatype Reply =
    | Entry(ino: nat, node: Node)
    | Opened(fh: nat)
    | Data(bytes: seq<byte>)
    | Listed(entries: seq<Dirent>)
    | Empty
    | Failed(errno: Errno)
    | Crashed

  datatype Request =
    | LookupName(parent: nat, name: Text)
    | ForgetInode(ino: nat)
    | OpenFile(ino: nat)
    | ReadFile(fh: nat, offset: i64, size: u32)
    | CloseFile(fh: nat)
    | OpenDirectory(ino: nat)
    | ListDirectory(fh: nat, cookie: i64, room: nat)
    | CloseDirectory(fh: nat)

  /**
   * What the replies depend on beside the tables: the image, whether inode numbers are generated,
   * whether no read spoils a cache, and whether nothing goes wrong on the device while it is asked.
   */
  datatype World = World(image: seq<byte>, generates: bool, trusty: bool, quiet: bool)

  // ---- numbers ----

  /** The entry can be given a number: a generated one, or its own. */
  predicate HasNumber(generates: bool, node: Node) {
    generates || node.meta.inode.Some?
  }

  function NumberFor(generates: bool, next: nat, node: Node): nat
    requires HasNumber(generates, node)
  {
    if generates then next else node.meta.inode.value
  }

  /** The counter after that many numbers */
  function CounterAfter(generates: bool, next: nat, count: nat): nat {
    if generates then next + count else next
  }

  // ---- listings ----

  function Cookie(next: Option<nat>): int {
    if next.None? then -1 else next.value
  }

  function Position(cookie: int): Option<nat> {
    if cookie < 0 then None else Some(cookie)
  }

  /** The entries `.` and `..`, which are listed but not bound */
  predicate IsDots(node: Node) {
    node.name == [46] || node.name == [46, 46]
  }

  predicate AllHaveNumbers(generates: bool, items: seq<Item>) {
    forall k :: 0 <= k < |items| ==> HasNumber(generates, items[k].node)
  }

  /** The entries of a listing as they are handed out, numbered from the counter on */
  function Dirents(generates: bool, next: nat, items: seq<Item>): (entries: seq<Dirent>)
    requires AllHaveNumbers(generates, items)
    ensures |entries| == |items|
  {
    if items == [] then []
    else
      var item := Last(items);
      var ino := NumberFor(generates, next + |items| - 1, item.node);
      Dirents(generates, next, Init(items)) + [Dirent(ino, Cookie(item.next), item.node)]
  }

  /** The inode table after a listing was handed out */
  function BindAll(generates: bool, next: nat, inodes: map<nat, Node>, items: seq<Item>): map<nat, Node>
    requires AllHaveNumbers(generates, items)
  {
    if items == [] then inodes
    else
      var node, before := Last(items).node, BindAll(generates, next, inodes, Init(items));
      if IsDots(node) then before else before[NumberFor(generates, next + |items| - 1, node) := node]
  }

  lemma OneMoreListed(generates: bool, next: nat, inodes: map<nat, Node>, items: seq<Item>, item: Item)
    requires AllHaveNumbers(generates, items) && HasNumber(generates, item.node)
    ensures AllHaveNumbers(generates, items + [item])
    ensures var ino, before := NumberFor(generates, next + |items|, item.node), BindAll(generates, next, inodes, items);
            && Dirents(generates, next, items + [item])
               == Dirents(generates, next, items) + [Dirent(ino, Cookie(item.next), item.node)]
            && BindAll(generates, next, inodes, items + [item])
               == if IsDots(item.node) then before else before[ino := item.node]
  {
    assert Init(items + [item]) == items;
  }

  lemma {:induction false} DirentAt(generates: bool, next: nat, items: seq<Item>, k: nat)
    requires AllHaveNumbers(generates, items) && k < |items|
    ensures Dirents(generates, next, items)[k]
         == Dirent(NumberFor(generates, next + k, items[k].node), Cookie(items[k].next), items[k].node)
    decreases |items|
  {
    if k < |items| - 1 {
      DirentAt(generates, next, Init(items), k);
    }
  }

  /** With generated numbers a listing binds each of its entries to the number handed out, except `.` and `..`. */
  lemma {:induction false} BoundUnlessDots(next: nat, inodes: map<nat, Node>, items: seq<Item>, k: nat)
    requires (forall i :: i in inodes ==> i < next) && k < |items|
    ensures var bound, name := BindAll(true, next, inodes, items), items[k].node.name;
            && (next + k in bound <==> name != [46] && name != [46, 46])
            && (next + k in bound ==> bound[next + k] == items[k].node)
    decreases |items|
  {
    BindAllGrows(next, inodes, Init(items));
    if k < |items| - 1 {
      BoundUnlessDots(next, inodes, Init(items), k);
    }
  }

  /** The shown entries of a directory of the image from an offset on */
  ghost function ShownAfter(image: seq<byte>, dir: Header, at: nat): seq<Item> {
    EntriesAdvance(image, dir);
    ShownFrom(Entries(image, dir), Limit(dir), Some(at))
  }

  /** Every entry of a directory of the image from an offset on can be read. */
  ghost predicate WholeFrom(image: seq<byte>, dir: Header, at: nat) {
    EntriesAdvance(image, dir);
    Complete(Entries(image, dir), Limit(dir), at)
  }

  // ---- what each request may be answered, and what it does to the tables ----

  /**
   * `lookup`: the errors in the order of the checks; then an entry is what the image has under that
   * name, bound to its number. When nothing goes wrong there is no entry only if the image has none or
   * its directory ends in an error before it, and a panic only if it has no number or its directory
   * makes the reader panic before it.
   */
  ghost predicate LooksUp(w: World, s: State, parent: nat, name: Text, reply: Reply, s': State) {
    if parent !in s.inodes then reply == Failed(EINVAL) && s' == s
    else if !s.inodes[parent].Directory? then reply == Failed(ENOTDIR) && s' == s
    else if s.inodeNumber == U64_MAX then reply == Failed(ENFILE) && s' == s
    else if !ValidUtf8(name) then reply == Crashed && s' == s
    else
      var dir := s.inodes[parent].header;
      var answer := Find(w.image, dir, name);
      match reply
      case Entry(ino, node) =>
        && answer == Found(node) && HasNumber(w.generates, node) && ino == NumberFor(w.generates, s.inodeNumber, node)
        && s' == s.(inodes := s.inodes[ino := node], inodeNumber := CounterAfter(w.generates, s.inodeNumber, 1))
      case Failed(ENOENT) =>
        s' == s && (w.quiet ==> answer.Missing? || (answer.Broken? && !EndsInPanic(w.image, dir, Some(0))))
      case Crashed =>
        && s' == s
        && (w.quiet ==>
              || (answer.Broken? && EndsInPanic(w.image, dir, Some(0)))
              || (answer.Found? && !HasNumber(w.generates, answer.node)))
      case _ => false
  }

  /** `open` */
  predicate Opens(s: State, ino: nat, reply: Reply, s': State) {
    if ino !in s.inodes then reply == Failed(EINVAL) && s' == s
    else if !s.inodes[ino].File? then reply == Failed(EISDIR) && s' == s
    else if s.fileNumber == U64_MAX then reply == Failed(ENFILE) && s' == s
    else
      var header := s.inodes[ino].header;
      && reply == Opened(s.fileNumber)
      && s' == s.(files := s.files[s.fileNumber := Extent(header.location, header.size)],
                  fileNumber := s.fileNumber + 1)
  }

  /** `opendir` */
  predicate OpensDirectory(s: State, ino: nat, reply: Reply, s': State) {
    if ino !in s.inodes then reply == Failed(EINVAL) && s' == s
    else if !s.inodes[ino].Directory? then reply == Failed(ENOTDIR) && s' == s
    else if s.directoryNumber == U64_MAX then reply == Failed(ENFILE) && s' == s
    else
      && reply == Opened(s.directoryNumber)
      && s' == s.(directories := s.directories[s.directoryNumber := s.inodes[ino]],
                  directoryNumber := s.directoryNumber + 1)
  }

  /**
   * `read`: the bytes are fixed by the open file, the offset and the size alone, whatever ran
   * before on this or any other handle.
   */
  ghost predicate Reads(w: World, s: State, fh: nat, offset: int, size: nat, reply: Reply) {
    if offset < 0 || fh !in s.files then reply == Failed(EINVAL)
    else
      var file := s.files[fh];
      match reply
      case Data(bytes) =>
        && |bytes| == ReadCount(file.size, offset, size)
        && (w.trusty ==> ShowsFile(w.image, file.start, offset, bytes))
      case Failed(EIO) => !w.quiet
      case _ => false
  }

  /** The entries that a walk from an offset comes past, up to the end or the first one that cannot be read */
  ghost function ListedAfter(image: seq<byte>, dir: Header, at: nat): seq<Item> {
    EntriesAdvance(image, dir);
    Listing(Entries(image, dir), Limit(dir), at)
  }

  /** The loop of `readdir` gets past an entry: a relocated one, or one with a number that there is room for. */
  predicate Passes(generates: bool, next: nat, room: nat, items: seq<Item>, j: nat)
    requires j < |items|
  {
    var node, n := items[j].node, |Shown(items[..j])|;
    && CounterAfter(generates, next, n) != U64_MAX
    && (node.meta.relocated || (HasNumber(generates, node) && n < room))
  }

  /**
   * How the loop ends where it gets no further: at the end of the directory; with the counter at its
   * end; before an entry there is no room for; with an error where the next entry cannot be read, or
   * where a read is due that may have gone wrong; with a panic where the next entry has no number or
   * makes the reader panic, or where a read of its areas is due that may have gone wrong.
   */
  ghost predicate Stops(w: World, dir: Header, c: Cursor, counter: nat, full: bool, reply: Reply) {
    if c.next.None? then reply.Listed?
    else if counter == U64_MAX then reply == Failed(ENFILE)
    else
      var at := c.next.value;
      var entry := EntryAt(w.image, dir, at);
      var shown := entry.Some? && !entry.value.node.meta.relocated;
      match reply
      case Listed(_) => full && shown && HasNumber(w.generates, entry.value.node)
      case Failed(EINVAL) => EntryFails(w.image, dir, at) || (!w.quiet && NextCost(w.image, dir, c) != Finite(0))
      case Crashed =>
        || EntryPanics(w.image, dir, at)
        || (shown && !HasNumber(w.generates, entry.value.node))
        || (!w.quiet && AreasDue(w.image, dir, at))
      case _ => false
  }

  /**
   * `readdir` from an offset, when it gets past `m` entries: those of them that are shown are handed
   * out and bound, numbered in a row, and then it stops.
   */
  ghost predicate ListsSome(w: World, s: State, dir: Header, at: nat, room: nat, m: nat, reply: Reply, s': State) {
    var items := ListedAfter(w.image, dir, at);
    && m <= |items|
    && (forall j :: 0 <= j < m ==> Passes(w.generates, s.inodeNumber, room, items, j))
    && var shown := Shown(items[..m]);
    && AllHaveNumbers(w.generates, shown)
    && s' == s.(inodes := BindAll(w.generates, s.inodeNumber, s.inodes, shown),
                inodeNumber := CounterAfter(w.generates, s.inodeNumber, |shown|))
    && s'.inodeNumber <= U64_MAX
    && (reply.Listed? ==> reply.entries == Dirents(w.generates, s.inodeNumber, shown))
    && Stops(w, dir, CursorAfter(w.image, dir, Cursor(None, Some(at)), m), s'.inodeNumber, |shown| == room, reply)
  }

  ghost predicate Lists(w: World, s: State, fh: nat, cookie: int, room: nat, reply: Reply, s': State) {
    if fh !in s.directories || cookie < -1 then reply == Failed(EINVAL) && s' == s
    else if cookie == -1 then reply == Listed([]) && s' == s
    else exists m: nat :: ListsSome(w, s, s.directories[fh].header, cookie, room, m, reply, s')
  }

  /** `release` and `releasedir` */
  function Closed(live: bool): Reply {
    if live then Empty else Failed(EINVAL)
  }

  ghost predicate Replies(w: World, s: State, request: Request, reply: Reply, s': State) {
    match request
    case LookupName(parent, name) => LooksUp(w, s, parent, name, reply, s')
    case ForgetInode(ino) => reply == Empty && s' == s.(inodes := s.inodes - {ino})
    case OpenFile(ino) => Opens(s, ino, reply, s')
    case ReadFile(fh, offset, size) => Reads(w, s, fh, offset, size, reply) && s' == s
    case CloseFile(fh) => reply == Closed(fh in s.files) && s' == s.(files := s.files - {fh})
    case OpenDirectory(ino) => OpensDirectory(s, ino, reply, s')
    case ListDirectory(fh, cookie, room) => Lists(w, s, fh, cookie, room, reply, s')
    case CloseDirectory(fh) => reply == Closed(fh in s.directories) && s' == s.(directories := s.directories - {fh})
  }

  // ---- how many reads the answers take ----

  /** The reads for a listing from a cursor on, with a number of entries still to be handed out */
  ghost function ListCostFrom(image: seq<byte>, generates: bool, next: nat, dir: Header, c: Cursor, room: nat): Cost
    decreases if c.next.Some? then 1 + Distance(c.next.value, Limit(dir)) else 0
  {
    EntriesAdvance(image, dir);
    if c.next.None? || next == U64_MAX then Finite(0)
    else
      match Entries(image, dir)(c.next.value)
      case None => NextCost(image, dir, c)
      case Some(item) =>
        assert AdvancesAt(Entries(image, dir), Limit(dir), c.next.value);
        var after := NextCursor(image, dir, c);
        if item.node.meta.relocated then
          Plus(NextCost(image, dir, c), ListCostFrom(image, generates, next, dir, after, room))
        else if !HasNumber(generates, item.node) || room == 0 then NextCost(image, dir, c)
        else
          Plus(NextCost(image, dir, c),
               ListCostFrom(image, generates, CounterAfter(generates, next, 1), dir, after, room - 1))
  }

  /** The reads for a listing call, which starts with nothing cached */
  ghost function ListCost(image: seq<byte>, generates: bool, next: nat, dir: Header, at: nat, room: nat): Cost {
    ListCostFrom(image, generates, next, dir, Cursor(None, Some(at)), room)
  }

  /** The reads for the answer to a request: at most those, and without faults enough */
  ghost function RequestCost(image: seq<byte>, generates: bool, s: State, request: Request): Cost {
    match request
    case LookupName(parent, name) =>
      if parent in s.inodes && s.inodes[parent].Directory? && s.inodeNumber != U64_MAX && ValidUtf8(name)
      then FindCost(image, s.inodes[parent].header, name) else Finite(0)
    case ReadFile(fh, offset, size) =>
      if offset >= 0 && fh in s.files then Finite(BlocksRead(s.files[fh].size, offset, size)) else Finite(0)
    case ListDirectory(fh, cookie, room) =>
      if fh in s.directories && cookie >= 0
      then ListCost(image, generates, s.inodeNumber, s.directories[fh].header, cookie, room) else Finite(0)
    case _ => Finite(0)
  }

  /** What can be said without faults includes what can be said with them. */
  lemma RepliesAnyway(w: World, s: State, request: Request, reply: Reply, s': State)
    requires Replies(w, s, request, reply, s')
    ensures Replies(w.(quiet := false), s, request, reply, s')
  {
    hide Find, EndsInPanic, ListedAfter, Dirents, BindAll, ShowsFile, ReadCount, ValidUtf8, Passes, Shown;
    hide EntryAt, EntryFails, EntryPanics, AreasDue, NextCost, CursorAfter;
    if request.ListDirectory? && request.fh in s.directories && request.cookie >= 0 {
      var dir := s.directories[request.fh].header;
      var m: nat :| ListsSome(w, s, dir, request.cookie, request.room, m, reply, s');
      assert ListsSome(w.(quiet := false), s, dir, request.cookie, request.room, m, reply, s');
    }
  }

  // ---- what a listing hands out ----

  /** Entries that the loop gets past have numbers, and there is room for them. */
  lemma {:induction false} PassedFit(generates: bool, next: nat, room: nat, items: seq<Item>, m: nat)
    requires m <= |items| && forall j :: 0 <= j < m ==> Passes(generates, next, room, items, j)
    ensures AllHaveNumbers(generates, Shown(items[..m])) && |Shown(items[..m])| <= room
    ensures next <= U64_MAX ==> CounterAfter(generates, next, |Shown(items[..m])|) <= U64_MAX
    decreases m
  {
    hide Shown;
    if m > 0 {
      PassedFit(generates, next, room, items, m - 1);
      OneMoreShown(items, m - 1);
      assert Passes(generates, next, room, items, m - 1);
    } else {
      assert items[..0] == [];
      NoneShown();
    }
  }

  lemma NoneShown()
    ensures Shown([]) == []
  {
  }

  /** A listing hands out the first of the entries shown from the offset on, and how many and why no more. */
  lemma HandedOut(w: World, s: State, dir: Header, at: nat, room: nat, m: nat, reply: Reply, s': State)
    returns (n: nat)
    requires ListsSome(w, s, dir, at, room, m, reply, s')
    ensures var shown := ShownAfter(w.image, dir, at);
            && n <= |shown| && n <= room && shown[..n] == Shown(ListedAfter(w.image, dir, at)[..m])
            && AllHaveNumbers(w.generates, shown[..n])
            && s'.inodeNumber == CounterAfter(w.generates, s.inodeNumber, n)
            && (reply.Listed? ==>
                  && reply.entries == Dirents(w.generates, s.inodeNumber, shown[..n])
                  && if n == |shown| then WholeFrom(w.image, dir, at) else n == room)
            && (reply.Failed? ==>
                  || (reply.errno == ENFILE && s'.inodeNumber == U64_MAX)
                  || (w.quiet ==> n == |shown| && !WholeFrom(w.image, dir, at)))
            && (reply.Crashed? && w.quiet ==>
                  || (n < |shown| && !HasNumber(w.generates, shown[n].node))
                  || (n == |shown| && !WholeFrom(w.image, dir, at)))
            && (reply.Listed? || reply.Failed? || reply.Crashed?)
  {
    hide Listing, Complete, Shown, Dirents, BindAll, Passes, EntryAt, EntryPanics, AreasDue, NextCost, CursorAfter;
    hide Advances;
    EntriesAdvance(w.image, dir);
    var step, limit, items := Entries(w.image, dir), Limit(dir), ListedAfter(w.image, dir, at);
    var handed := Shown(items[..m]);
    n := |handed|;
    PassedFit(w.generates, s.inodeNumber, room, items, m);
    ShownPast(step, limit, at, m);
    WalkedPast(step, limit, at, m);
    CursorPast(w.image, dir, None, at, m);
    var here := Resumption(Some(at), items[..m]);
    NothingShown(step, limit, at);
    if here.Some? {
      AtPosition(w.image, dir, here.value);
    }
    assert ShownAfter(w.image, dir, at)[..n] == handed;
  }

  /** What is shown, and whether all can be read, at a position whose entry is known */
  lemma AtPosition(image: seq<byte>, dir: Header, at: nat)
    ensures Advances(Entries(image, dir), Limit(dir))
    ensures var entry, shown := EntryAt(image, dir, at), ShownFrom(Entries(image, dir), Limit(dir), Some(at));
            && (entry.None? ==> shown == [] && !CompleteFrom(Entries(image, dir), Limit(dir), Some(at)))
            && (entry.Some? && !entry.value.node.meta.relocated ==> shown != [] && shown[0] == entry.value)
            && (EntryPanics(image, dir, at) ==> entry.None?)
  {
    hide EntryAt, EntryPanics, Listing, Shown;
    EntriesAdvance(image, dir);
    EntryHasBlock(image, dir, at);
    NothingShown(Entries(image, dir), Limit(dir), at);
    if EntryAt(image, dir, at).Some? {
      ShownSplits(Entries(image, dir), Limit(dir), at);
    } else {
      BrokenHere(Entries(image, dir), Limit(dir), at);
    }
  }

  lemma BrokenHere(step: Stepper, limit: nat, at: nat)
    requires Advances(step, limit) && step(at).None?
    ensures !Complete(step, limit, at)
  {
  }

  // ---- one step ----

  function Inos(entries: seq<Dirent>): seq<nat> {
    Map((d: Dirent) => d.ino, entries)
  }

  /** The numbers that a reply hands out */
  function IssuedBy(request: Request, reply: Reply): Issued {
    match reply
    case Entry(ino, _) => Issued([], [], [ino])
    case Opened(fh) => if request.OpenFile? then Issued([fh], [], []) else Issued([], [fh], [])
    case Listed(entries) => Issued([], [], Inos(entries))
    case _ => Issued([], [], [])
  }

  /** Handing out a listing with generated numbers binds only numbers that the counter passes over. */
  lemma {:induction false} BindAllGrows(next: nat, inodes: map<nat, Node>, items: seq<Item>)
    requires forall i :: i in inodes ==> i < next
    ensures Grows(inodes, next, BindAll(true, next, inodes, items), next + |items|)
    ensures forall i :: i in BindAll(true, next, inodes, items) ==> i < next + |items|
    decreases |items|
  {
    if items != [] {
      BindAllGrows(next, inodes, Init(items));
    }
  }

  lemma DirentsInARow(next: nat, items: seq<Item>)
    ensures Row(Inos(Dirents(true, next, items)), next, next + |items|)
  {
    forall k | 0 <= k < |items|
      ensures Inos(Dirents(true, next, items))[k] == next + k
    {
      DirentAt(true, next, items, k);
    }
  }

  lemma ListingStep(w: World, s: State, dir: Header, at: nat, room: nat, m: nat, reply: Reply, s': State)
    requires Inv(w.generates, s) && ListsSome(w, s, dir, at, room, m, reply, s')
    ensures Inv(w.generates, s') && Evolves(w.generates, s, s')
    ensures Issues(w.generates, s, IssuedBy(ListDirectory(0, 0, 0), reply), s')
  {
    hide ListedAfter, BindAll, Dirents, Passes, Shown, CursorAfter, EntryAt, EntryFails, EntryPanics, AreasDue;
    hide NextCost;
    var items := Shown(ListedAfter(w.image, dir, at)[..m]);
    if w.generates {
      BindAllGrows(s.inodeNumber, s.inodes, items);
      DirentsInARow(s.inodeNumber, items);
    }
  }

  lemma LookupStep(w: World, s: State, parent: nat, name: Text, reply: Reply, s': State)
    requires Inv(w.generates, s) && LooksUp(w, s, parent, name, reply, s')
    ensures Inv(w.generates, s') && Evolves(w.generates, s, s')
    ensures Issues(w.generates, s, IssuedBy(LookupName(parent, name), reply), s')
  {
    hide Find, EndsInPanic, ValidUtf8;
  }

  /**
   * Every reply keeps the invariant, changes the tables only by new numbers and by what it gives up,
   * and hands out the numbers that the counters stood at.
   */
  lemma StepEvolves(w: World, s: State, request: Request, reply: Reply, s': State)
    requires Inv(w.generates, s) && Replies(w, s, request, reply, s')
    ensures Inv(w.generates, s') && Evolves(w.generates, s, s')
    ensures Issues(w.generates, s, IssuedBy(request, reply), s')
  {
    hide LooksUp, ListsSome, ShowsFile, ReadCount;
    match request
    case LookupName(parent, name) => LookupStep(w, s, parent, name, reply, s');
    case ListDirectory(fh, cookie, room) =>
      if fh in s.directories && cookie >= 0 {
        var dir := s.directories[fh].header;
        var m: nat :| ListsSome(w, s, dir, cookie, room, m, reply, s');
        ListingStep(w, s, dir, cookie, room, m, reply, s');
      }
    case _ =>
  }

  // ---- runs ----

  /** A run: the states before and after each request, the requests and their replies */
  ghost predicate IsRun(w: World, states: seq<State>, requests: seq<Request>, replies: seq<Reply>) {
    && |requests| == |replies| == |states| - 1
    && Inv(w.generates, states[0])
    && forall k :: 0 <= k < |requests| ==> Replies(w, states[k], requests[k], replies[k], states[k + 1])
  }

  lemma {:induction false} RunKeepsInv(
      w: World, states: seq<State>, requests: seq<Request>, replies: seq<Reply>, k: nat)
    requires IsRun(w, states, requests, replies) && k < |states|
    ensures Inv(w.generates, states[k])
    decreases k
  {
    hide Replies, Inv;
    if k > 0 {
      RunKeepsInv(w, states, requests, replies, k - 1);
      StepEvolves(w, states[k - 1], requests[k - 1], replies[k - 1], states[k]);
    }
  }

  lemma {:induction false} RunEvolves(
      w: World, states: seq<State>, requests: seq<Request>, replies: seq<Reply>, i: nat, j: nat)
    requires IsRun(w, states, requests, replies) && i <= j < |states|
    ensures Evolves(w.generates, states[i], states[j])
    decreases j
  {
    hide Replies, Inv, Evolves;
    if i == j {
      EvolvesSame(w.generates, states[i]);
    } else {
      RunEvolves(w, states, requests, replies, i, j - 1);
      RunKeepsInv(w, states, requests, replies, i);
      RunKeepsInv(w, states, requests, replies, j - 1);
      StepEvolves(w, states[j - 1], requests[j - 1], replies[j - 1], states[j]);
      EvolvesOn(w.generates, states[i], states[j - 1], states[j]);
    }
  }

  function FileRow(i: Issued): seq<nat> { i.files }

  function DirectoryRow(i: Issued): seq<nat> { i.directories }

  function InodeRow(i: Issued): seq<nat> { i.inodes }

  /** What the replies of a run hand out, reply by reply */
  function AllIssued(requests: seq<Request>, replies: seq<Reply>): (all: seq<Issued>)
    requires |requests| == |replies|
    ensures |all| == |requests| && forall k :: 0 <= k < |all| ==> all[k] == IssuedBy(requests[k], replies[k])
  {
    if requests == [] then []
    else AllIssued(Init(requests), Init(replies)) + [IssuedBy(Last(requests), Last(replies))]
  }

  /**
   * Over every run the file handles handed out are strictly increasing, and so are the directory
   * handles and the generated inode numbers, those of listings included: no number is handed out
   * twice, within a reply or in different ones, nor one that was in use at the start.
   */
  lemma NothingIssuedTwice(w: World, states: seq<State>, requests: seq<Request>, replies: seq<Reply>)
    requires IsRun(w, states, requests, replies)
    ensures var all := AllIssued(requests, replies);
            && Fresh(Map(FileRow, all), states[0].fileNumber)
            && Fresh(Map(DirectoryRow, all), states[0].directoryNumber)
            && (w.generates ==> Fresh(Map(InodeRow, all), states[0].inodeNumber))
  {
    hide Replies, Inv, Evolves, Increasing, Flatten, Map;
    var all := AllIssued(requests, replies);
    forall k | 0 <= k < |requests|
      ensures Issues(w.generates, states[k], all[k], states[k + 1])
    {
      RunKeepsInv(w, states, requests, replies, k);
      StepEvolves(w, states[k], requests[k], replies[k], states[k + 1]);
    }
    RowsIncrease(Map(FileRow, all), Map((s: State) => s.fileNumber, states));
    RowsIncrease(Map(DirectoryRow, all), Map((s: State) => s.directoryNumber, states));
    if w.generates {
      RowsIncrease(Map(InodeRow, all), Map((s: State) => s.inodeNumber, states));
    }
  }

  /** All numbers are different, and not below the counter. */
  ghost predicate Fresh(rows: seq<seq<nat>>, next: nat) {
    Increasing(Flatten(rows)) && forall n :: n in Flatten(rows) ==> n >= next
  }

  /** The reply gives out this inode number. */
  predicate GivesOut(reply: Reply, ino: nat) {
    || (reply.Entry? && reply.ino == ino)
    || (reply.Listed? && exists k :: 0 <= k < |reply.entries| && reply.entries[k].ino == ino)
  }

  /**
   * Over every run: of two file handles, two directory handles or two generated inode numbers the one given
   * out in a later reply is larger, and so it is within a listing.
   */
  lemma LaterIsLarger(w: World, states: seq<State>, requests: seq<Request>, replies: seq<Reply>, i: nat, j: nat,
                      m: nat, n: nat)
    requires IsRun(w, states, requests, replies) && i < j < |requests|
    ensures requests[i].OpenFile? && requests[j].OpenFile? && replies[i].Opened? && replies[j].Opened? ==>
              replies[i].fh < replies[j].fh
    ensures requests[i].OpenDirectory? && requests[j].OpenDirectory? && replies[i].Opened? && replies[j].Opened? ==>
              replies[i].fh < replies[j].fh
    ensures w.generates && GivesOut(replies[i], m) && GivesOut(replies[j], n) ==> m < n
    ensures w.generates && replies[i].Listed? ==>
              var entries := replies[i].entries;
              forall k, l :: 0 <= k < l < |entries| ==> entries[k].ino < entries[l].ino
  {
    hide Replies, Inv;
    GivenByStep(w, states, requests, replies, i, m);
    GivenByStep(w, states, requests, replies, j, n);
    RunEvolves(w, states, requests, replies, i + 1, j);
  }

  /** What a reply gives out lies between the counters before and after it, in the order of a listing. */
  lemma GivenByStep(w: World, states: seq<State>, requests: seq<Request>, replies: seq<Reply>, k: nat, ino: nat)
    requires IsRun(w, states, requests, replies) && k < |requests|
    ensures var s, s', reply := states[k], states[k + 1], replies[k];
            && (reply.Opened? && requests[k].OpenFile? ==> s.fileNumber <= reply.fh < s'.fileNumber)
            && (reply.Opened? && requests[k].OpenDirectory? ==> s.directoryNumber <= reply.fh < s'.directoryNumber)
            && (w.generates && GivesOut(reply, ino) ==> s.inodeNumber <= ino < s'.inodeNumber)
            && (w.generates && reply.Listed? ==>
                  forall i :: 0 <= i < |reply.entries| ==> reply.entries[i].ino == s.inodeNumber + i)
  {
    hide Replies, Inv, Evolves;
    RunKeepsInv(w, states, requests, replies, k);
    StepEvolves(w, states[k], requests[k], replies[k], states[k + 1]);
    var issued := IssuedBy(requests[k], replies[k]);
    if replies[k].Listed? {
      assert forall i :: 0 <= i < |replies[k].entries| ==> issued.inodes[i] == replies[k].entries[i].ino;
    } else if replies[k].Entry? {
      assert issued.inodes[0] == replies[k].ino;
    } else if replies[k].Opened? {
      assert requests[k].OpenFile? ==> issued.files[0] == replies[k].fh;
      assert requests[k].OpenDirectory? ==> issued.directories[0] == replies[k].fh;
    }
  }

  /** A table keeps what its live numbers mean, and a number that was given up stays given up. */
  ghost predicate KeepsMeaning<T>(before: map<nat, T>, next: nat, after: map<nat, T>, n: nat) {
    && (n in before && n in after ==> before[n] == after[n])
    && (n !in before && n < next ==> n !in after)
  }

  /**
   * Over every run: a number that is live at two moments means the same at both, and a number that
   * was handed out and given up is never live again.
   */
  lemma LiveNumbersKeepMeaning(
      w: World, states: seq<State>, requests: seq<Request>, replies: seq<Reply>, i: nat, j: nat, n: nat)
    requires IsRun(w, states, requests, replies) && i <= j < |states|
    ensures KeepsMeaning(states[i].files, states[i].fileNumber, states[j].files, n)
    ensures KeepsMeaning(states[i].directories, states[i].directoryNumber, states[j].directories, n)
    ensures w.generates ==> KeepsMeaning(states[i].inodes, states[i].inodeNumber, states[j].inodes, n)
  {
    hide Replies;
    RunEvolves(w, states, requests, replies, i, j);
  }

  lemma RunBegins(w: World, s: State)
    requires Inv(w.generates, s)
    ensures IsRun(w, [s], [], [])
  {
  }

  /** One more request at the end of a run */
  lemma RunGoesOn(w: World, states: seq<State>, requests: seq<Request>, replies: seq<Reply>,
                  request: Request, reply: Reply, s: State)
    requires IsRun(w, states, requests, replies) && Replies(w, Last(states), request, reply, s)
    ensures IsRun(w, states + [s], requests + [request], replies + [reply])
  {
    hide Replies, Inv;
  }

  // ---- how many reads a run takes ----

  /** The reads for the first requests of a run */
  ghost function RunCost(w: World, states: seq<State>, requests: seq<Request>, k: nat): Cost
    requires k <= |requests| && k <= |states|
  {
    if k == 0 then Finite(0)
    else
      Plus(RunCost(w, states, requests, k - 1), RequestCost(w.image, w.generates, states[k - 1], requests[k - 1]))
  }

  /** The run has not panicked. */
  predicate NoPanic(replies: seq<Reply>) {
    forall k :: 0 <= k < |replies| ==> !replies[k].Crashed?
  }

  /**
   * However the requests are answered without faults, from a state on and up to a panic, answering
   * them and the next one takes at most that many reads.
   */
  ghost predicate Affordable(w: World, s: State, requests: seq<Request>, budget: nat) {
    forall states, replies, k: nat ::
      k < |requests| && IsRun(w.(quiet := true), states, requests[..k], replies) && states[0] == s
      && NoPanic(replies) ==>
        var cost := RunCost(w, states, requests, k + 1);
        cost.Finite? && cost.value <= budget
  }

  /** What a run has taken does not depend on what comes later. */
  lemma {:induction false} OneMoreCost(w: World, states: seq<State>, s: State, requests: seq<Request>, k: nat)
    requires k <= |requests| && k <= |states|
    ensures RunCost(w, states + [s], requests, k) == RunCost(w, states, requests, k)
    decreases k
  {
    hide RequestCost;
    if k > 0 {
      OneMoreCost(w, states, s, requests, k - 1);
    }
  }

  lemma NextIsAffordable(w: World, s: State, requests: seq<Request>, budget: nat, states: seq<State>,
                         replies: seq<Reply>)
    requires Affordable(w, s, requests, budget) && |replies| < |requests|
    requires IsRun(w.(quiet := true), states, requests[..|replies|], replies) && states[0] == s
    requires forall k :: 0 <= k < |replies| ==> !replies[k].Crashed?
    ensures |states| == |replies| + 1
    ensures var now, next := RunCost(w, states, requests, |replies|), RunCost(w, states, requests, |replies| + 1);
            && next.Finite? && next.value <= budget
            && next == Plus(now, RequestCost(w.image, w.generates, Last(states), requests[|replies|]))
  {
    hide RequestCost, Replies, Inv;
    assert NoPanic(replies);
    assert |requests[..|replies|]| == |replies|;
  }
}
