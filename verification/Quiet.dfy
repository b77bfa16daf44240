/**
 Requests with which nothing goes wrong: the reply is the one that the image and the tables
 determine, and for any requests there is a number of reads that is enough.
 */
module Quiet {
  import opened Base
  import opened Strings
  import Susp
  import opened Record
  import opened DirectoryEntry
  import opened BlockDevice
  import opened Continuation
  import opened Walk
  import opened Directory
  import opened Lookup
  import opened Files
  import opened ServerState
  import opened Protocol
  import opened Chains
  import opened Server

  // ---- one reply only ----

  /** A listing that stops does not get past that place. */
  lemma NotPast(w: World, s: State, dir: Header, at: nat, room: nat, m: nat, reply: Reply, s': State,
                m': nat, reply': Reply, s'': State)
    requires w.quiet && ListsSome(w, s, dir, at, room, m, reply, s') && ListsSome(w, s, dir, at, room, m', reply', s'')
    ensures m' <= m
  {
    hide Entries, EntryAt, EntryPanics, Listing, CursorAfter, NextCost, AreasDue, Dirents, BindAll, Shown, Limit;
    if m < m' {
      EntriesAdvance(w.image, dir);
      assert Passes(w.generates, s.inodeNumber, room, ListedAfter(w.image, dir, at), m);
      CursorPast(w.image, dir, None, at, m);
      WalkedPast(Entries(w.image, dir), Limit(dir), at, m);
      var here := CursorAfter(w.image, dir, Cursor(None, Some(at)), m).next.value;
      EntriesReadAt(w.image, dir, here);
      EntryHasBlock(w.image, dir, here);
    }
  }

  lemma ListingsAgree(w: World, s: State, dir: Header, at: nat, room: nat, m: nat, reply: Reply, s': State,
                      m': nat, reply': Reply, s'': State)
    requires w.quiet && ListsSome(w, s, dir, at, room, m, reply, s') && ListsSome(w, s, dir, at, room, m', reply', s'')
    ensures reply == reply' && s' == s''
  {
    NotPast(w, s, dir, at, room, m, reply, s', m', reply', s'');
    NotPast(w, s, dir, at, room, m', reply', s'', m, reply, s');
    hide EntryAt, ListedAfter, CursorAfter, NextCost, AreasDue, Dirents, BindAll, Shown, Passes, EntryPanics;
    var c := CursorAfter(w.image, dir, Cursor(None, Some(at)), m);
    if c.next.Some? {
      EntryHasBlock(w.image, dir, c.next.value);
    }
  }

  /** The bytes of a file in the image are the same in every reply that shows them. */
  lemma SameBytes(image: seq<byte>, start: nat, position: nat, a: seq<byte>, b: seq<byte>)
    requires ShowsFile(image, start, position, a) && ShowsFile(image, start, position, b) && |a| == |b|
    requires |a| > 0 ==> start * BLOCK + position + |a| <= |image|
    ensures a == b
  {
  }

  lemma LookupsAgree(w: World, s: State, parent: nat, name: Text, reply: Reply, s': State, reply': Reply, s'': State)
    requires w.quiet && LooksUp(w, s, parent, name, reply, s') && LooksUp(w, s, parent, name, reply', s'')
    ensures reply == reply' && s' == s''
  {
    hide Find, EndsInPanic, ValidUtf8;
  }

  /** Two replies to a read of a file in the image show the same bytes. */
  lemma ReadsAgree(w: World, s: State, fh: nat, offset: int, size: nat, reply: Reply, reply': Reply)
    requires w.quiet && Reads(w, s, fh, offset, size, reply) && Reads(w, s, fh, offset, size, reply')
    requires w.trusty && (fh in s.files ==> s.files[fh].start * BLOCK + s.files[fh].size as int <= |w.image|)
    ensures reply == reply'
  {
    hide ShowsFile;
    if reply.Data? && reply'.Data? {
      SameBytes(w.image, s.files[fh].start, offset, reply.bytes, reply'.bytes);
    }
  }

  /**
   * When nothing goes wrong, image and tables determine the reply to a request and the new tables,
   * whatever ran before; for a read, if its file lies in the image and no cache was spoilt.
   */
  lemma RepliesAgree(w: World, s: State, request: Request, reply: Reply, s': State, reply': Reply, s'': State)
    requires w.quiet && Replies(w, s, request, reply, s') && Replies(w, s, request, reply', s'')
    ensures s' == s''
    ensures !request.ReadFile? ==> reply == reply'
    ensures request.ReadFile? && w.trusty
              && (request.fh in s.files ==>
                    s.files[request.fh].start * BLOCK + s.files[request.fh].size as int <= |w.image|) ==>
              reply == reply'
  {
    hide LooksUp, ListsSome, Reads;
    match request
    case LookupName(parent, name) => LookupsAgree(w, s, parent, name, reply, s', reply', s'');
    case ListDirectory(fh, cookie, room) =>
      if fh in s.directories && cookie >= 0 {
        var dir := s.directories[fh].header;
        var m: nat :| ListsSome(w, s, dir, cookie, room, m, reply, s');
        var m': nat :| ListsSome(w, s, dir, cookie, room, m', reply', s'');
        ListingsAgree(w, s, dir, cookie, room, m, reply, s', m', reply', s'');
      }
    case ReadFile(fh, offset, size) =>
      if w.trusty && (fh in s.files ==> s.files[fh].start * BLOCK + s.files[fh].size as int <= |w.image|) {
        ReadsAgree(w, s, fh, offset, size, reply, reply');
      }
    case _ =>
  }

  /** The tables after any requests are determined by those before. */
  lemma {:induction false} RunsAgree(w: World, requests: seq<Request>, states: seq<State>, replies: seq<Reply>,
                                     states': seq<State>, replies': seq<Reply>, k: nat)
    requires w.quiet && IsRun(w, states, requests, replies) && IsRun(w, states', requests, replies')
    requires states[0] == states'[0] && k < |states|
    ensures |states'| == |states| && states[k] == states'[k]
    decreases k
  {
    hide Replies, Inv;
    if k > 0 {
      RunsAgree(w, requests, states, replies, states', replies', k - 1);
      RepliesAgree(w, states[k - 1], requests[k - 1], replies[k - 1], states[k], replies'[k - 1], states'[k]);
    }
  }

  // ---- costs are finite ----

  /** Reading an entry of the directory ends at every offset, also where no record starts. */
  ghost predicate Bounded(image: seq<byte>, dir: Header) {
    forall at: nat :: EntryCost(image, dir, None, at).Finite?
  }

  lemma NextIsBounded(image: seq<byte>, dir: Header, c: Cursor)
    requires Bounded(image, dir)
    ensures NextCost(image, dir, c).Finite?
  {
    hide EntryCost;
    if c.next.Some? {
      CachedOrNot(image, dir, c.cached, c.next.value);
    }
  }

  lemma {:induction false} FindIsBounded(image: seq<byte>, dir: Header, c: Cursor, name: Text)
    requires Bounded(image, dir)
    ensures FindCostFrom(image, dir, c, name).Finite?
    decreases if c.next.Some? then 1 + Distance(c.next.value, Limit(dir)) else 0
  {
    hide EntryAt, NextCost, Bounded, SameName, CachedAfter;
    EntriesAdvance(image, dir);
    NextIsBounded(image, dir, c);
    if c.next.Some? && Entries(image, dir)(c.next.value).Some? {
      assert AdvancesAt(Entries(image, dir), Limit(dir), c.next.value);
      FindIsBounded(image, dir, NextCursor(image, dir, c), name);
    }
  }

  /** A listing takes finitely many reads if every entry it may come to does. */
  lemma {:induction false} ListIsFinite(image: seq<byte>, generates: bool, next: nat, dir: Header, c: Cursor, room: nat)
    requires Advances(Entries(image, dir), Limit(dir))
    requires Bounded(image, dir) || CompleteFrom(Entries(image, dir), Limit(dir), c.next)
    ensures ListCostFrom(image, generates, next, dir, c, room).Finite?
    decreases if c.next.Some? then 1 + Distance(c.next.value, Limit(dir)) else 0
  {
    hide EntryAt, EntryCost, Bounded, HasNumber;
    if c.next.Some? && next != U64_MAX {
      EntryCostIsFinite(image, dir, c.cached, c.next.value);
      if Bounded(image, dir) {
        NextIsBounded(image, dir, c);
      }
      if Entries(image, dir)(c.next.value).Some? {
        assert AdvancesAt(Entries(image, dir), Limit(dir), c.next.value);
        var after := NextCursor(image, dir, c);
        ListIsFinite(image, generates, next, dir, after, room);
        if room > 0 {
          ListIsFinite(image, generates, CounterAfter(generates, next, 1), dir, after, room - 1);
        }
      }
    }
  }

  /** Listing a directory that can be read to its end, call by call, takes finitely many reads. */
  lemma {:induction false} SessionIsFinite(image: seq<byte>, generates: bool, next: nat, dir: Header, cookie: int,
                                           rooms: seq<nat>)
    requires Advances(Entries(image, dir), Limit(dir))
    requires cookie >= 0 ==> WholeFrom(image, dir, cookie)
    ensures SessionCost(image, generates, next, dir, cookie, rooms).Finite?
    decreases |rooms|
  {
    hide Entries, Listing, Complete, Shown, ListCostFrom, Limit;
    if rooms != [] && cookie >= 0 {
      var shown := ShownAfter(image, dir, cookie);
      var items := shown[..Min(rooms[0], |shown|)];
      ListIsFinite(image, generates, next, dir, Cursor(None, Some(cookie)), rooms[0]);
      if items != [] {
        ResumesWithin(Entries(image, dir), Limit(dir), cookie, |items| - 1);
      }
      SessionIsFinite(image, generates, CounterAfter(generates, next, |items|), dir,
                      if items == [] then cookie else Cookie(Last(items).next), rooms[1..]);
    }
  }

  // ---- requests on what can be reached ----

  /** Entries among which are all those of their directories, where an attempt to read ends at every offset */
  ghost predicate Closed(image: seq<byte>, all: iset<Node>) {
    forall p :: p in all && p.Directory? ==> Bounded(image, p.header) && HoldsOnly(image, p.header, all)
  }

  ghost predicate HoldsOnly(image: seq<byte>, dir: Header, all: iset<Node>) {
    forall at: nat :: EntryAt(image, dir, at).Some? ==> EntryAt(image, dir, at).value.node in all
  }

  /** All that the tables lead to is among these entries. */
  ghost predicate Within(s: State, all: iset<Node>) {
    && (forall i :: i in s.inodes ==> s.inodes[i] in all)
    && (forall h :: h in s.directories ==> s.directories[h] in all && s.directories[h].Directory?)
  }

  lemma ListedWithin(image: seq<byte>, dir: Header, at: nat, all: iset<Node>)
    requires HoldsOnly(image, dir, all)
    ensures forall item :: item in ListedAfter(image, dir, at) ==> item.node in all
  {
    hide Entries, EntryAt, Listing, Limit;
    EntriesAdvance(image, dir);
    var items := ListedAfter(image, dir, at);
    forall k | 0 <= k < |items|
      ensures items[k].node in all
    {
      var offset := ListedIsAtAnOffset(Entries(image, dir), Limit(dir), at, k);
      EntriesReadAt(image, dir, offset);
    }
  }

  lemma FoundWithin(image: seq<byte>, dir: Header, name: Text, all: iset<Node>)
    requires HoldsOnly(image, dir, all)
    ensures Find(image, dir, name).Found? ==> Find(image, dir, name).node in all
  {
    hide Entries, Listing, Complete, Matches, HoldsOnly;
    EntriesAdvance(image, dir);
    ListedWithin(image, dir, 0, all);
    var items, complete := ListedAfter(image, dir, 0), Complete(Entries(image, dir), Limit(dir), 0);
    PicksFirst(items, complete, name);
  }

  lemma {:induction false} BoundWithin(generates: bool, next: nat, inodes: map<nat, Node>, items: seq<Item>,
                                       all: iset<Node>)
    requires AllHaveNumbers(generates, items) && forall item :: item in items ==> item.node in all
    requires forall i :: i in inodes ==> inodes[i] in all
    ensures forall i :: i in BindAll(generates, next, inodes, items) ==>
              BindAll(generates, next, inodes, items)[i] in all
    decreases |items|
  {
    hide IsDots;
    if items != [] {
      assert Last(items) in items;
      BoundWithin(generates, next, inodes, Init(items), all);
    }
  }

  lemma {:induction false} ShownAmong(items: seq<Item>)
    ensures forall item :: item in Shown(items) ==> item in items
  {
    if items != [] {
      ShownAmong(items[1..]);
    }
  }

  lemma ListingStaysWithin(w: World, s: State, dir: Header, at: nat, room: nat, m: nat, reply: Reply, s': State,
                           all: iset<Node>)
    requires HoldsOnly(w.image, dir, all) && Within(s, all) && ListsSome(w, s, dir, at, room, m, reply, s')
    ensures Within(s', all)
  {
    hide HoldsOnly, ListedAfter, Shown, BindAll, Stops, Passes, CursorAfter, Dirents;
    var items := ListedAfter(w.image, dir, at);
    ListedWithin(w.image, dir, at, all);
    ShownAmong(items[..m]);
    BoundWithin(w.generates, s.inodeNumber, s.inodes, Shown(items[..m]), all);
  }

  lemma StepStaysWithin(w: World, s: State, request: Request, reply: Reply, s': State, all: iset<Node>)
    requires Closed(w.image, all) && Within(s, all) && Replies(w, s, request, reply, s')
    ensures Within(s', all)
  {
    hide Bounded, HoldsOnly, Find, EndsInPanic, ListsSome, Reads, ValidUtf8;
    match request
    case LookupName(parent, name) =>
      if reply.Entry? {
        FoundWithin(w.image, s.inodes[parent].header, name, all);
      }
    case ListDirectory(fh, cookie, room) =>
      if fh in s.directories && cookie >= 0 {
        var dir := s.directories[fh].header;
        var m: nat :| ListsSome(w, s, dir, cookie, room, m, reply, s');
        ListingStaysWithin(w, s, dir, cookie, room, m, reply, s', all);
      }
    case _ =>
  }

  lemma {:induction false} RunStaysWithin(w: World, states: seq<State>, requests: seq<Request>, replies: seq<Reply>,
                                          all: iset<Node>, k: nat)
    requires IsRun(w, states, requests, replies) && Closed(w.image, all) && Within(states[0], all) && k < |states|
    ensures Within(states[k], all)
    decreases k
  {
    hide Closed, Within, Replies, Inv;
    if k > 0 {
      RunStaysWithin(w, states, requests, replies, all, k - 1);
      StepStaysWithin(w, states[k - 1], requests[k - 1], replies[k - 1], states[k], all);
    }
  }

  /** Every request on such tables takes finitely many reads. */
  lemma RequestIsFinite(image: seq<byte>, generates: bool, s: State, request: Request, all: iset<Node>)
    requires Closed(image, all) && Within(s, all)
    ensures RequestCost(image, generates, s, request).Finite?
  {
    hide Bounded, HoldsOnly, Entries, ListCostFrom, FindCostFrom, BlocksRead, ValidUtf8;
    match request
    case LookupName(parent, name) =>
      if parent in s.inodes && s.inodes[parent].Directory? {
        FindIsBounded(image, s.inodes[parent].header, START, name);
      }
    case ListDirectory(fh, cookie, room) =>
      if fh in s.directories && cookie >= 0 {
        var dir := s.directories[fh].header;
        EntriesAdvance(image, dir);
        ListIsFinite(image, generates, s.inodeNumber, dir, Cursor(None, Some(cookie)), room);
      }
    case _ =>
  }

  lemma {:induction false} RunIsFinite(w: World, states: seq<State>, requests: seq<Request>, all: iset<Node>, k: nat)
    requires Closed(w.image, all) && k <= |requests| && k <= |states|
    requires forall j :: 0 <= j < k ==> Within(states[j], all)
    ensures RunCost(w, states, requests, k).Finite?
    decreases k
  {
    hide Closed, Within, RequestCost;
    if k > 0 {
      RunIsFinite(w, states, requests, all, k - 1);
      RequestIsFinite(w.image, w.generates, states[k - 1], requests[k - 1], all);
    }
  }

  /** The cost of the first requests depends on the tables before each of them. */
  lemma {:induction false} SameCost(w: World, states: seq<State>, states': seq<State>, requests: seq<Request>, k: nat)
    requires k <= |requests| && k <= |states| && k <= |states'|
    requires forall j :: 0 <= j < k ==> states[j] == states'[j]
    ensures RunCost(w, states, requests, k) == RunCost(w, states', requests, k)
    decreases k
  {
    hide RequestCost;
    if k > 0 {
      SameCost(w, states, states', requests, k - 1);
    }
  }

  /** The first `n` requests and one more are paid for, however the first are answered without faults. */
  ghost predicate PaidFor(w: World, s: State, requests: seq<Request>, n: nat, budget: nat)
    requires n <= |requests|
  {
    forall states, replies, k: nat ::
      k < n && IsRun(w.(quiet := true), states, requests[..k], replies) && states[0] == s && NoPanic(replies) ==>
        var cost := RunCost(w, states, requests, k + 1);
        cost.Finite? && cost.value <= budget
  }

  /** A run from these tables on */
  ghost predicate RunFrom(w: World, s: State, states: seq<State>, requests: seq<Request>, replies: seq<Reply>)
    ensures RunFrom(w, s, states, requests, replies) ==> |states| == |requests| + 1 && |replies| == |requests|
  {
    IsRun(w, states, requests, replies) && states[0] == s
  }

  /** All runs of so many requests without faults take the same number of reads. */
  lemma OneCost(w: World, s: State, requests: seq<Request>, n: nat, all: iset<Node>) returns (cost: nat)
    requires Closed(w.image, all) && Within(s, all) && n < |requests|
    ensures forall states, replies ::
              RunFrom(w.(quiet := true), s, states, requests[..n], replies) ==>
                RunCost(w, states, requests, n + 1) == Finite(cost)
  {
    hide IsRun, RunCost, Closed, Within;
    var calm := w.(quiet := true);
    cost := 0;
    if states, replies :| RunFrom(calm, s, states, requests[..n], replies) {
      forall j | 0 <= j < n + 1
        ensures Within(states[j], all)
      {
        RunStaysWithin(calm, states, requests[..n], replies, all, j);
      }
      RunIsFinite(w, states, requests, all, n + 1);
      cost := RunCost(w, states, requests, n + 1).value;
      forall states', replies' | RunFrom(calm, s, states', requests[..n], replies')
        ensures RunCost(w, states', requests, n + 1) == Finite(cost)
      {
        forall j | 0 <= j < n + 1
          ensures states[j] == states'[j]
        {
          RunsAgree(calm, requests[..n], states, replies, states', replies', j);
        }
        SameCost(w, states, states', requests, n + 1);
      }
    }
  }

  lemma PaidBefore(w: World, s: State, requests: seq<Request>, n: nat, budget: nat, states: seq<State>,
                   replies: seq<Reply>, k: nat)
    requires n <= |requests| && PaidFor(w, s, requests, n, budget) && k < n
    requires RunFrom(w.(quiet := true), s, states, requests[..k], replies) && NoPanic(replies)
    ensures var paid := RunCost(w, states, requests, k + 1); paid.Finite? && paid.value <= budget
  {
    hide RunCost;
  }

  lemma AllPaid(w: World, s: State, requests: seq<Request>, n: nat, budget: nat)
    requires n <= |requests|
    requires forall states, replies, k: nat ::
               k < n && RunFrom(w.(quiet := true), s, states, requests[..k], replies) && NoPanic(replies) ==>
                 var paid := RunCost(w, states, requests, k + 1); paid.Finite? && paid.value <= budget
    ensures PaidFor(w, s, requests, n, budget)
  {
    hide RunCost, Replies, Inv, NoPanic;
    forall states, replies, k: nat | k < n && IsRun(w.(quiet := true), states, requests[..k], replies)
                                     && states[0] == s && NoPanic(replies)
      ensures var paid := RunCost(w, states, requests, k + 1); paid.Finite? && paid.value <= budget
    {
      assert RunFrom(w.(quiet := true), s, states, requests[..k], replies);
    }
  }

  lemma {:induction false} BudgetFor(w: World, s: State, requests: seq<Request>, n: nat, all: iset<Node>)
    returns (budget: nat)
    requires Closed(w.image, all) && Within(s, all) && n <= |requests|
    ensures PaidFor(w, s, requests, n, budget)
    decreases n
  {
    hide IsRun, RunCost, Closed, Within;
    budget := 0;
    if n > 0 {
      var before := BudgetFor(w, s, requests, n - 1, all);
      var cost := OneCost(w, s, requests, n - 1, all);
      budget := if cost > before then cost else before;
      forall states, replies, k: nat | k < n && RunFrom(w.(quiet := true), s, states, requests[..k], replies)
                                       && NoPanic(replies)
        ensures var paid := RunCost(w, states, requests, k + 1); paid.Finite? && paid.value <= budget
      {
        if k < n - 1 {
          PaidBefore(w, s, requests, n - 1, before, states, replies, k);
        }
      }
      AllPaid(w, s, requests, n, budget);
    }
  }

  /**
   * For any requests there is a number of reads that pays for them, however they are answered without
   * faults: on any image and any entries of it that a client can reach, if reading an entry of their
   * directories ends at every offset.
   */
  lemma BudgetExists(w: World, s: State, requests: seq<Request>, all: iset<Node>) returns (budget: nat)
    requires Closed(w.image, all) && Within(s, all)
    ensures Affordable(w, s, requests, budget)
  {
    hide IsRun, RunCost, Closed, Within;
    budget := BudgetFor(w, s, requests, |requests|, all);
  }

  ghost function Everything(): iset<Node> {
    iset n: Node | n.File? || n.Directory? || n.Symlink?
  }

  /** On an image whose continuation areas all lead to an end, that is so for whatever the tables lead to. */
  lemma EveryChainEnds(image: seq<byte>, s: State)
    requires forall a: Susp.Area :: Steps(Reading(image), [a]).Finite?
    requires forall h :: h in s.directories ==> s.directories[h].Directory?
    ensures Closed(image, Everything()) && Within(s, Everything())
  {
    hide Steps, AreaEntries;
    forall dir: Header, at: nat
      ensures EntryCost(image, dir, None, at).Finite?
    {
      AreasEnd(image, dir, at);
    }
  }

  lemma AreasEnd(image: seq<byte>, dir: Header, at: nat)
    requires forall a: Susp.Area :: Steps(Reading(image), [a]).Finite?
    ensures EntryCost(image, dir, None, at).Finite?
  {
    hide Steps, AreaEntries, ParseRecord, Areas;
    NoSteps(Reading(image));
  }
}
