/**
 Inode numbers taken from the image: exactly when a live number can come to mean something else.
 */
module Rebinding {
  import opened Base
  import opened Strings
  import opened Record
  import opened DirectoryEntry
  import opened Walk
  import opened Directory
  import opened Lookup
  import opened ServerState
  import opened Protocol
  import opened Chains

  /** A live inode number comes to mean something else. */
  ghost predicate Rebinds(s: State, s': State) {
    exists i :: i in s.inodes && i in s'.inodes && ContentOf(s.inodes[i]) != ContentOf(s'.inodes[i])
  }

  /** A run of any requests on a freshly started server, up to a panic if there is one */
  ghost predicate IsUse(w: World, root: Node, states: seq<State>, requests: seq<Request>, replies: seq<Reply>)
    ensures IsUse(w, root, states, requests, replies) ==> states != []
  {
    IsRun(w, states, requests, replies) && states[0] == FirstState(root) && NoPanic(replies)
  }

  ghost predicate SomeStepRebinds(states: seq<State>) {
    exists k :: 0 <= k < |states| - 1 && Rebinds(states[k], states[k + 1])
  }

  // ---- whatever is bound is at the end of a chain ----

  ghost predicate Bindable(w: World, root: Node, i: nat, n: Node) {
    exists chain :: Chain(w, root, chain) && Last(chain) == n && NumberOn(chain) == Some(i)
  }

  ghost predicate AllBindable(w: World, root: Node, inodes: map<nat, Node>) {
    forall i :: i in inodes ==> Bindable(w, root, i, inodes[i])
  }

  ghost predicate IsOpenable(w: World, root: Node, n: Node) {
    n.Directory? && exists i :: Bindable(w, root, i, n)
  }

  ghost predicate Rooted(w: World, root: Node, s: State) {
    && s.inodeNumber == ROOT + 1 && AllBindable(w, root, s.inodes)
    && forall h :: h in s.directories ==> IsOpenable(w, root, s.directories[h])
  }

  lemma ChildIsBindable(w: World, root: Node, i: nat, p: Node, n: Node)
    requires Bindable(w, root, i, p) && Child(w, p, n)
    ensures Bindable(w, root, n.meta.inode.value, n)
  {
    hide Child;
    var chain :| Chain(w, root, chain) && Last(chain) == p && NumberOn(chain) == Some(i);
    assert Child(w, p, n) ==> n.meta.inode.Some? by { ChildHasNumber(w, p, n); }
    assert Chain(w, root, chain + [n]) && Last(chain + [n]) == n;
  }

  lemma ChildHasNumber(w: World, p: Node, n: Node)
    requires Child(w, p, n)
    ensures p.Directory? && n.meta.inode.Some?
  {
  }

  lemma EntryStaysRooted(w: World, root: Node, s: State, parent: nat, name: Text, reply: Reply, s': State)
    requires !w.generates && Rooted(w, root, s) && LooksUp(w, s, parent, name, reply, s') && reply.Entry?
    ensures Rooted(w, root, s')
  {
    hide Bindable, Find, ValidUtf8;
    var p := s.inodes[parent];
    assert Named(w, p, name, reply.node);
    assert Child(w, p, reply.node);
    ChildIsBindable(w, root, parent, p, reply.node);
  }

  /** The next entry that is shown, or the end of those the listing came past */
  lemma {:induction false} NextShown(items: seq<Item>, k: nat, m: nat) returns (j: nat)
    requires k < m <= |items|
    ensures k < j <= m && (forall i :: k < i < j ==> items[i].node.meta.relocated)
    ensures j == m || !items[j].node.meta.relocated
    decreases m - k
  {
    j := k + 1;
    while j < m && items[j].node.meta.relocated
      invariant k < j <= m && forall i :: k < i < j ==> items[i].node.meta.relocated
    {
      j := j + 1;
    }
  }

  /** Where a walk that starts at an entry comes to is where one that comes past it does. */
  lemma SameWay(image: seq<byte>, dir: Header, from: nat, k: nat, j: nat) returns (at: nat)
    requires Advances(Entries(image, dir), Limit(dir))
    requires k < j <= |ListedAfter(image, dir, from)| && from < 0x8000_0000_0000_0000
    ensures at < 0x8000_0000_0000_0000
    ensures ListedAfter(image, dir, at) == ListedAfter(image, dir, from)[k..]
    ensures CursorAfter(image, dir, Cursor(None, Some(at)), j - k)
         == CursorAfter(image, dir, Cursor(None, Some(from)), j)
  {
    hide Entries, Listing, CursorAfter, BlockCount;
    var step, limit := Entries(image, dir), Limit(dir);
    var items := ListedAfter(image, dir, from);
    WalkedPast(step, limit, from, k);
    at := Resumption(Some(from), items[..k]).value;
    LimitFits(dir);
    var rest := items[k..];
    CursorPast(image, dir, None, from, j);
    CursorPast(image, dir, None, at, j - k);
    assert rest[..j - k][j - k - 1] == items[..j][j - 1];
    if k + 1 < j {
      assert rest[..j - k - 1][j - k - 2] == items[..j - 1][j - 2];
    }
  }

  lemma LimitFits(dir: Header)
    ensures Limit(dir) < 0x8000_0000_0000_0000
  {
  }

  /** Every entry that a listing without a panic hands out and binds could be bound by a listing of its own. */
  lemma EachListed(w: World, s: State, p: Node, from: nat, room: nat, m: nat, reply: Reply, s': State, k: nat)
    requires !w.generates && p.Directory? && from < 0x8000_0000_0000_0000 && s.inodeNumber != U64_MAX
    requires ListsSome(w, s, p.header, from, room, m, reply, s') && !reply.Crashed? && k < m
    requires var node := ListedAfter(w.image, p.header, from)[k].node;
             !node.meta.relocated && !IsDots(node) && node.meta.inode.Some?
    ensures Child(w, p, ListedAfter(w.image, p.header, from)[k].node)
  {
    hide Entries, EntryAt, EntryFails, EntryPanics, NextCost, CursorAfter, Listing, IsDots, AreasDue, Shown, BindAll;
    hide Dirents, Limit;
    var dir := p.header;
    EntriesAdvance(w.image, dir);
    var items := ListedAfter(w.image, dir, from);
    var j := NextShown(items, k, m);
    var at := SameWay(w.image, dir, from, k, j);
    var c := CursorAfter(w.image, dir, Cursor(None, Some(from)), j);
    if j < m {
      CursorPast(w.image, dir, None, from, j);
      WalkedPast(Entries(w.image, dir), Limit(dir), from, j);
      EntriesReadAt(w.image, dir, c.next.value);
      assert Passes(w.generates, s.inodeNumber, room, items, j);
    }
    assert ListedTo(w, p, at, j - k, items[k].node);
    assert ListedAt(w, p, at, items[k].node);
  }

  lemma {:induction false} ShownIsListed(items: seq<Item>)
    ensures forall item :: item in Shown(items) ==> item in items && !item.node.meta.relocated
  {
    if items != [] {
      ShownIsListed(items[1..]);
    }
  }

  lemma {:induction false} ListingStaysBindable(
      w: World, root: Node, next: nat, inodes: map<nat, Node>, items: seq<Item>)
    requires AllHaveNumbers(false, items) && AllBindable(w, root, inodes)
    requires forall k :: 0 <= k < |items| && !IsDots(items[k].node) ==>
               HasNumber(false, items[k].node) && Bindable(w, root, items[k].node.meta.inode.value, items[k].node)
    ensures AllBindable(w, root, BindAll(false, next, inodes, items))
    decreases |items|
  {
    hide Bindable, IsDots;
    if items != [] {
      assert HasNumber(false, items[|items| - 1].node);
      ListingStaysBindable(w, root, next, inodes, Init(items));
    }
  }

  lemma ListingStaysRooted(w: World, root: Node, s: State, p: Node, from: nat, room: nat, m: nat, reply: Reply,
                           s': State)
    requires !w.generates && Rooted(w, root, s) && !reply.Crashed?
    requires IsOpenable(w, root, p) && from < 0x8000_0000_0000_0000
    requires ListsSome(w, s, p.header, from, room, m, reply, s')
    ensures Rooted(w, root, s')
  {
    hide Bindable, BindAll, ListedAfter, Dirents, Child, IsDots, Stops, CursorAfter, Passes, Shown;
    var items := ListedAfter(w.image, p.header, from);
    var shown := Shown(items[..m]);
    var i :| Bindable(w, root, i, p);
    ShownIsListed(items[..m]);
    forall k | 0 <= k < |shown| && !IsDots(shown[k].node)
      ensures HasNumber(false, shown[k].node) && Bindable(w, root, shown[k].node.meta.inode.value, shown[k].node)
    {
      assert HasNumber(false, shown[k].node) && shown[k] in shown;
      var j :| 0 <= j < m && items[..m][j] == shown[k];
      EachListed(w, s, p, from, room, m, reply, s', j);
      ChildIsBindable(w, root, i, p, items[j].node);
    }
    ListingStaysBindable(w, root, s.inodeNumber, s.inodes, shown);
  }

  lemma StepStaysRooted(w: World, root: Node, s: State, request: Request, reply: Reply, s': State)
    requires !w.generates && Rooted(w, root, s) && Replies(w, s, request, reply, s') && !reply.Crashed?
    ensures Rooted(w, root, s')
  {
    hide Bindable, Find, BindAll, ValidUtf8, Reads, ListsSome, EndsInPanic;
    match request
    case LookupName(parent, name) =>
      if reply.Entry? {
        EntryStaysRooted(w, root, s, parent, name, reply, s');
      }
    case ListDirectory(fh, cookie, room) =>
      if fh in s.directories && cookie >= 0 {
        var p := s.directories[fh];
        var m: nat :| ListsSome(w, s, p.header, cookie, room, m, reply, s');
        ListingStaysRooted(w, root, s, p, cookie, room, m, reply, s');
      }
    case _ =>
  }

  lemma {:induction false} UseStaysRooted(
      w: World, root: Node, states: seq<State>, requests: seq<Request>, replies: seq<Reply>, k: nat)
    requires !w.generates && IsUse(w, root, states, requests, replies) && k < |states|
    ensures Rooted(w, root, states[k])
    decreases k
  {
    hide Replies;
    if k == 0 {
      assert Chain(w, root, [root]) && Last([root]) == root;
    } else {
      hide Rooted, Chain;
      UseStaysRooted(w, root, states, requests, replies, k - 1);
      StepStaysRooted(w, root, states[k - 1], requests[k - 1], replies[k - 1], states[k]);
    }
  }

  /**
   * If the serial numbers of the image identify its files, no run of any requests, with any faults
   * and up to a panic, rebinds: a number that is live at two moments leads to the same file at both.
   */
  lemma SerialsSuffice(
      w: World, root: Node, states: seq<State>, requests: seq<Request>, replies: seq<Reply>, i: nat, j: nat)
    requires !w.generates && IsUse(w, root, states, requests, replies)
    requires NumbersIdentify(w, root) && i < |states| && j < |states|
    ensures !Rebinds(states[i], states[j])
  {
    hide Replies, Chain, NumberOn, ContentOf;
    UseStaysRooted(w, root, states, requests, replies, i);
    UseStaysRooted(w, root, states, requests, replies, j);
    var a, b := states[i].inodes, states[j].inodes;
    forall ino | ino in a && ino in b
      ensures ContentOf(a[ino]) == ContentOf(b[ino])
    {
      assert Bindable(w, root, ino, a[ino]) && Bindable(w, root, ino, b[ino]);
    }
  }

  // ---- where two chains lead to different files, requests can rebind ----

  /** Whatever is live stays live and means the same. */
  ghost predicate Keeps(s: State, s': State) {
    forall i :: i in s.inodes ==> i in s'.inodes && ContentOf(s'.inodes[i]) == ContentOf(s.inodes[i])
  }

  /** After some more requests, at most `opens` of which open a directory: nothing lost, and the entry is bound. */
  ghost predicate Arrives(s: State, i: nat, n: Node, opens: nat, s': State) {
    && Keeps(s, s') && s'.inodeNumber == s.inodeNumber && s'.directoryNumber <= s.directoryNumber + opens
    && i in s'.inodes && s'.inodes[i] == n
  }

  lemma StepKeepsOrRebinds(states: seq<State>, s: State, i: nat, n: Node)
    requires states != [] && s.inodes == Last(states).inodes[i := n]
    ensures SomeStepRebinds(states + [s]) || Keeps(Last(states), s)
  {
    hide ContentOf;
    var before := Last(states);
    if !Keeps(before, s) {
      var k := |states| - 1;
      assert (states + [s])[k] == before && (states + [s])[k + 1] == s;
      assert i in before.inodes && ContentOf(before.inodes[i]) != ContentOf(s.inodes[i]);
      assert Rebinds((states + [s])[k], (states + [s])[k + 1]);
    }
  }

  lemma UseGoesOn(w: World, root: Node, states: seq<State>, requests: seq<Request>, replies: seq<Reply>,
                  request: Request, reply: Reply, s: State)
    requires IsUse(w, root, states, requests, replies) && Replies(w, Last(states), request, reply, s) && !reply.Crashed?
    ensures IsUse(w, root, states + [s], requests + [request], replies + [reply])
  {
    hide Replies, Inv;
    RunGoesOn(w, states, requests, replies, request, reply, s);
  }

  /** An entry is looked up by name. */
  lemma BindByName(w: World, root: Node, states: seq<State>, requests: seq<Request>, replies: seq<Reply>,
                   at: nat, name: Text, n: Node)
    returns (s': State, request: Request, reply: Reply)
    requires IsUse(w, root, states, requests, replies) && !w.generates && Last(states).inodeNumber < U64_MAX
    requires at in Last(states).inodes && Last(states).inodes[at].Directory?
    requires Named(w, Last(states).inodes[at], name, n) && n.meta.inode.Some?
    ensures IsUse(w, root, states + [s'], requests + [request], replies + [reply])
    ensures SomeStepRebinds(states + [s']) || Arrives(Last(states), n.meta.inode.value, n, 1, s')
  {
    hide Find, ValidUtf8, Inv, SomeStepRebinds, ContentOf;
    var s, ino := Last(states), n.meta.inode.value;
    s' := s.(inodes := s.inodes[ino := n]);
    request, reply := LookupName(at, name), Entry(ino, n);
    assert Replies(w, s, request, reply, s');
    UseGoesOn(w, root, states, requests, replies, request, reply, s');
    StepKeepsOrRebinds(states, s', ino, n);
  }

  /** Of entries that are relocated but for the first one, the first one is shown. */
  lemma {:induction false} OnlyFirstShown(items: seq<Item>, m: nat)
    requires m <= |items|
    requires (0 < m ==> !items[0].node.meta.relocated) && forall j :: 0 < j < m ==> items[j].node.meta.relocated
    ensures Shown(items[..m]) == if m == 0 then [] else [items[0]]
    decreases m
  {
    hide Shown;
    if m > 0 {
      OnlyFirstShown(items, m - 1);
      OneMoreShown(items, m - 1);
    } else {
      assert items[..0] == [];
      NoneShown();
    }
  }

  /** The answer to a listing with room for one entry, by what comes after it */
  lemma ListOne(w: World, s: State, p: Node, fh: nat, at: nat, n: Node) returns (s': State, reply: Reply)
    requires !w.generates && fh in s.directories && s.directories[fh] == p && s.inodeNumber < U64_MAX
    requires ListedAt(w, p, at, n) && n.meta.inode.Some?
    ensures Replies(w, s, ListDirectory(fh, at, 1), reply, s') && !reply.Crashed?
    ensures s' == s.(inodes := s.inodes[n.meta.inode.value := n])
  {
    hide ListedAfter, EntryAt, EntryFails, EntryPanics, NextCost, CursorAfter, IsDots, Shown, AreasDue;
    var m: nat :| ListedTo(w, p, at, m, n);
    var items := ListedAfter(w.image, p.header, at);
    var item := items[0];
    OnlyFirstShown(items, m);
    assert Init([item]) == [];
    assert HasNumber(false, item.node) && AllHaveNumbers(false, [item]);
    s' := s.(inodes := s.inodes[n.meta.inode.value := n]);
    assert BindAll(false, s.inodeNumber, s.inodes, [item]) == s'.inodes;
    forall j | 0 <= j < m
      ensures Passes(false, s.inodeNumber, 1, items, j)
    {
      OnlyFirstShown(items, j);
    }
    var c := CursorAfter(w.image, p.header, Cursor(None, Some(at)), m);
    if c.next.None? || (var entry := EntryAt(w.image, p.header, c.next.value);
                        entry.Some? && !entry.value.node.meta.relocated && HasNumber(false, entry.value.node)) {
      reply := Listed(Dirents(false, s.inodeNumber, [item]));
    } else {
      reply := Failed(EINVAL);
    }
    assert ListsSome(w, s, p.header, at, 1, m, reply, s');
  }

  /** An entry is bound by opening its directory and listing it from the right offset. */
  lemma BindByListing(w: World, root: Node, states: seq<State>, requests: seq<Request>, replies: seq<Reply>,
                      ino: nat, at: nat, n: Node)
    returns (states': seq<State>, requests': seq<Request>, replies': seq<Reply>)
    requires IsUse(w, root, states, requests, replies) && !w.generates && Last(states).inodeNumber < U64_MAX
    requires Last(states).directoryNumber < U64_MAX
    requires ino in Last(states).inodes && Last(states).inodes[ino].Directory?
    requires ListedAt(w, Last(states).inodes[ino], at, n) && n.meta.inode.Some?
    ensures IsUse(w, root, states', requests', replies')
    ensures SomeStepRebinds(states') || Arrives(Last(states), n.meta.inode.value, n, 1, Last(states'))
  {
    hide ListedAt, Inv, SomeStepRebinds, ContentOf, ListsSome;
    var s, p := Last(states), Last(states).inodes[ino];
    var fh := s.directoryNumber;
    var open := s.(directories := s.directories[fh := p], directoryNumber := fh + 1);
    assert Replies(w, s, OpenDirectory(ino), Opened(fh), open);
    UseGoesOn(w, root, states, requests, replies, OpenDirectory(ino), Opened(fh), open);
    ListedHasCookie(w, p, at, n);
    var s', reply := ListOne(w, open, p, fh, at, n);
    UseGoesOn(w, root, states + [open], requests + [OpenDirectory(ino)], replies + [Opened(fh)],
              ListDirectory(fh, at, 1), reply, s');
    StepKeepsOrRebinds(states + [open], s', n.meta.inode.value, n);
    states', requests' := states + [open] + [s'], requests + [OpenDirectory(ino)] + [ListDirectory(fh, at, 1)];
    replies' := replies + [Opened(fh)] + [reply];
  }

  lemma ListedHasCookie(w: World, p: Node, at: nat, n: Node)
    requires ListedAt(w, p, at, n)
    ensures at < 0x8000_0000_0000_0000
  {
    var m: nat :| ListedTo(w, p, at, m, n);
  }

  /** One link of a chain: the entry can be bound from whatever is bound with the content of its directory. */
  lemma BindChild(w: World, root: Node, states: seq<State>, requests: seq<Request>, replies: seq<Reply>,
                  at: nat, p: Node, n: Node)
    returns (states': seq<State>, requests': seq<Request>, replies': seq<Reply>)
    requires IsUse(w, root, states, requests, replies) && !w.generates && Last(states).inodeNumber < U64_MAX
    requires Last(states).directoryNumber < U64_MAX && Child(w, p, n)
    requires at in Last(states).inodes && ContentOf(Last(states).inodes[at]) == ContentOf(p)
    ensures n.meta.inode.Some? && IsUse(w, root, states', requests', replies')
    ensures SomeStepRebinds(states') || Arrives(Last(states), n.meta.inode.value, n, 1, Last(states'))
  {
    hide IsUse, Find, ListedTo, ValidUtf8, SomeStepRebinds, Arrives, SamePlace;
    var here := Last(states).inodes[at];
    SameDirectory(w.image, p, here);
    if name: Text :| Named(w, p, name, n) {
      assert Named(w, here, name, n);
      var s', request, reply := BindByName(w, root, states, requests, replies, at, name, n);
      states', requests', replies' := states + [s'], requests + [request], replies + [reply];
      assert Last(states') == s';
    } else {
      var offset: nat :| ListedAt(w, p, offset, n);
      var m: nat :| ListedTo(w, p, offset, m, n);
      SameListed(w, p, here, offset, m, n);
      assert ListedAt(w, here, offset, n);
      states', requests', replies' := BindByListing(w, root, states, requests, replies, at, offset, n);
    }
  }

  /** The links of a chain can be bound one after the other, unless some step rebinds. */
  lemma {:induction false} Follow(
      w: World, root: Node, states: seq<State>, requests: seq<Request>, replies: seq<Reply>, at: nat, chain: seq<Node>)
    returns (states': seq<State>, requests': seq<Request>, replies': seq<Reply>)
    requires IsUse(w, root, states, requests, replies) && !w.generates && Last(states).inodeNumber < U64_MAX
    requires |chain| > 1 && Last(states).directoryNumber + |chain| - 1 <= U64_MAX
    requires forall k :: 0 < k < |chain| ==> Child(w, chain[k - 1], chain[k])
    requires at in Last(states).inodes && ContentOf(Last(states).inodes[at]) == ContentOf(chain[0])
    ensures Last(chain).meta.inode.Some? && IsUse(w, root, states', requests', replies')
    ensures SomeStepRebinds(states')
         || Arrives(Last(states), Last(chain).meta.inode.value, Last(chain), |chain| - 1, Last(states'))
    decreases |chain|
  {
    hide IsUse, Child, SomeStepRebinds, ContentOf;
    states', requests', replies' := BindChild(w, root, states, requests, replies, at, chain[0], chain[1]);
    var rest := chain[1..];
    assert Last(rest) == Last(chain);
    forall k | 0 < k < |rest|
      ensures Child(w, rest[k - 1], rest[k])
    {
      assert Child(w, chain[k], chain[k + 1]);
    }
    if |rest| == 1 {
      assert Last(chain) == chain[1];
    } else if SomeStepRebinds(states') {
      ChildHasNumber(w, chain[|chain| - 2], chain[|chain| - 1]);
    } else {
      var ino := chain[1].meta.inode.value;
      states', requests', replies' := Follow(w, root, states', requests', replies', ino, rest);
    }
  }

  lemma UseBegins(w: World, root: Node)
    requires !w.generates
    ensures IsUse(w, root, [FirstState(root)], [], [])
  {
    hide Replies;
    RunBegins(w, FirstState(root));
  }

  /** A chain is followed from a state in which nothing has been rebound. */
  lemma FollowFrom(w: World, root: Node, states: seq<State>, requests: seq<Request>, replies: seq<Reply>,
                   chain: seq<Node>)
    returns (states': seq<State>, requests': seq<Request>, replies': seq<Reply>)
    requires IsUse(w, root, states, requests, replies) && !w.generates && Chain(w, root, chain)
    requires Keeps(FirstState(root), Last(states)) && Last(states).inodeNumber == ROOT + 1
    requires Last(states).directoryNumber + |chain| - 1 <= U64_MAX
    ensures IsUse(w, root, states', requests', replies')
    ensures !SomeStepRebinds(states') ==>
              && Keeps(Last(states), Last(states')) && Last(states').inodeNumber == ROOT + 1
              && Last(states').directoryNumber <= Last(states).directoryNumber + |chain| - 1
              && NumberOn(chain).Some? && NumberOn(chain).value in Last(states').inodes
              && ContentOf(Last(states').inodes[NumberOn(chain).value]) == ContentOf(Last(chain))
  {
    hide IsUse, Child, SomeStepRebinds, ContentOf;
    assert ROOT in FirstState(root).inodes;
    if |chain| == 1 {
      states', requests', replies' := states, requests, replies;
    } else {
      states', requests', replies' := Follow(w, root, states, requests, replies, ROOT, chain);
    }
  }

  /** Where two chains lead to different files under one number, following both makes some step rebind. */
  lemma TwoChainsRebind(w: World, root: Node, p: seq<Node>, q: seq<Node>)
    returns (states: seq<State>, requests: seq<Request>, replies: seq<Reply>)
    requires !w.generates && Chain(w, root, p) && Chain(w, root, q) && |p| + |q| - 2 <= U64_MAX
    requires NumberOn(p) == NumberOn(q) && ContentOf(Last(p)) != ContentOf(Last(q))
    ensures IsUse(w, root, states, requests, replies) && SomeStepRebinds(states)
  {
    hide IsUse, Chain, SomeStepRebinds, ContentOf, NumberOn;
    UseBegins(w, root);
    states, requests, replies := FollowFrom(w, root, [FirstState(root)], [], [], p);
    if !SomeStepRebinds(states) {
      states, requests, replies := FollowFrom(w, root, states, requests, replies, q);
    }
  }

  /**
   * On a freshly started server that takes numbers from the image, some run of requests rebinds
   * before any panic, if and only if two chains of entries from the root lead to different files
   * that the image gives the same number, or to one that it gives the root's. Chains go by name or
   * by what is listed; an image is a file, so its size is a signed 64-bit number.
   */
  lemma RebindsIff(w: World, root: Node)
    requires !w.generates && |w.image| < 0x8000_0000_0000_0000
    ensures (exists states, requests, replies :: IsUse(w, root, states, requests, replies) && SomeStepRebinds(states))
        <==> !NumbersIdentify(w, root)
  {
    hide IsUse, Chain, ContentOf, NumberOn;
    if !NumbersIdentify(w, root) {
      var p, q :| Chain(w, root, p) && Chain(w, root, q) && NumberOn(p) == NumberOn(q)
                  && ContentOf(Last(p)) != ContentOf(Last(q));
      var p' := ShortChain(w, root, p);
      var q' := ShortChain(w, root, q);
      var states, requests, replies := TwoChainsRebind(w, root, p', q');
    }
    forall states, requests, replies | IsUse(w, root, states, requests, replies) && SomeStepRebinds(states)
      ensures !NumbersIdentify(w, root)
    {
      var k :| 0 <= k < |states| - 1 && Rebinds(states[k], states[k + 1]);
      if NumbersIdentify(w, root) {
        SerialsSuffice(w, root, states, requests, replies, k, k + 1);
      }
    }
  }
}
