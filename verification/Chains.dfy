/**
 What the entries of an image that have serial numbers let a client bind: chains of entries from the
 root downwards, what they lead to, and how long they need to be.
 */
module Chains {
  import opened Base
  import opened Strings
  import Susp
  import opened Record
  import opened Identifier
  import opened RockRidge
  import opened DirectoryEntry
  import opened BlockDevice
  import opened Continuation
  import opened Walk
  import opened Directory
  import opened Lookup
  import opened ServerState
  import opened Protocol

  /** What a client reaches through an inode, whatever the entry is called */
  datatype Content =
    | Folder(location: u32, size: u32, encoding: Encoding)
    | Plain(location: u32, size: u32)
    | Target(target: Option<Text>)

  function ContentOf(n: Node): Content {
    match n
    case Directory(h, _, _) => Folder(h.location, h.size, h.encoding)
    case File(h, _, _, _) => Plain(h.location, h.size)
    case Symlink(_, _, m, _) => Target(m.target)
  }

  /** The same file: the same kind, and the same place and size, or the same link target; its name does not matter. */
  lemma SameFile(m: Node, n: Node)
    ensures ContentOf(m) == ContentOf(n) <==>
              || (m.Directory? && n.Directory? && m.header.location == n.header.location
                  && m.header.size == n.header.size && m.header.encoding == n.header.encoding)
              || (m.File? && n.File? && m.header.location == n.header.location && m.header.size == n.header.size)
              || (m.Symlink? && n.Symlink? && m.meta.target == n.meta.target)
  {
  }

  // ---- which entries the image lets a client bind ----

  /** A lookup of that name binds the entry. */
  ghost predicate Named(w: World, p: Node, name: Text, n: Node) {
    ValidUtf8(name) && Find(w.image, p.header, name) == Found(n)
  }

  /**
   * A listing may stop there without a panic: at the end, before an entry with a number, with an error
   * at an entry that cannot be read, or where a read is due that may go wrong.
   */
  ghost predicate StopsCalmly(w: World, dir: Header, c: Cursor) {
    c.next.Some? ==>
      var entry := EntryAt(w.image, dir, c.next.value);
      || (entry.Some? && !entry.value.node.meta.relocated && HasNumber(false, entry.value.node))
      || EntryFails(w.image, dir, c.next.value)
      || (!w.quiet && NextCost(w.image, dir, c) != Finite(0))
  }

  /** A listing from that offset binds the entry at it, and stops after it and relocated ones, `m` in all. */
  ghost predicate ListedTo(w: World, p: Node, at: nat, m: nat, n: Node) {
    var items := ListedAfter(w.image, p.header, at);
    && at < 0x8000_0000_0000_0000
    && 0 < m <= |items| && items[0].node == n && !n.meta.relocated && !IsDots(n)
    && (forall j :: 0 < j < m ==> items[j].node.meta.relocated)
    && StopsCalmly(w, p.header, CursorAfter(w.image, p.header, Cursor(None, Some(at)), m))
  }

  /** A listing from that offset binds the entry, and does not panic. */
  ghost predicate ListedAt(w: World, p: Node, at: nat, n: Node) {
    exists m: nat :: ListedTo(w, p, at, m, n)
  }

  /** An entry of a directory that a client can bind to its serial number, by name or in a listing from any offset */
  ghost predicate Child(w: World, p: Node, n: Node) {
    && p.Directory? && n.meta.inode.Some?
    && ((exists name: Text :: Named(w, p, name, n)) || (exists at: nat :: ListedAt(w, p, at, n)))
  }

  /** Entries that lead from the root downwards, each one in the directory before it */
  ghost predicate Chain(w: World, root: Node, chain: seq<Node>)
    ensures Chain(w, root, chain) ==> chain != []
  {
    && chain != [] && chain[0] == root
    && forall k :: 0 < k < |chain| ==> Child(w, chain[k - 1], chain[k])
  }

  /** The number under which the end of a chain is bound: the root's own, or the serial number */
  function NumberOn(chain: seq<Node>): Option<nat>
    requires chain != []
  {
    if |chain| == 1 then Some(ROOT)
    else if Last(chain).meta.inode.None? then None else Some(Last(chain).meta.inode.value)
  }

  /** Chains from the root to one number lead to the same file. */
  ghost predicate NumbersIdentify(w: World, root: Node) {
    forall p, q :: Chain(w, root, p) && Chain(w, root, q) && NumberOn(p) == NumberOn(q) ==>
      ContentOf(Last(p)) == ContentOf(Last(q))
  }

  // ---- directories of the same content hold the same entries ----

  predicate SamePlace(g: Header, h: Header) {
    g.location == h.location && g.size == h.size && g.encoding == h.encoding
  }

  lemma SameEntries(image: seq<byte>, g: Header, h: Header, at: nat)
    requires SamePlace(g, h)
    ensures EntryAt(image, g, at) == EntryAt(image, h, at)
    ensures EntryFails(image, g, at) == EntryFails(image, h, at)
    ensures forall cached :: EntryCost(image, g, cached, at) == EntryCost(image, h, cached, at)
    ensures CachedAfter(image, g, at / BLOCK) == CachedAfter(image, h, at / BLOCK)
  {
    hide Meaning, MeaningPanics, ParseRecord, BlockAt, NextOffset, BlockCount, AreasCost;
  }

  lemma {:induction false} SameListing(image: seq<byte>, g: Header, h: Header, at: nat)
    requires SamePlace(g, h)
    requires Advances(Entries(image, g), Limit(g)) && Advances(Entries(image, h), Limit(h))
    ensures Listing(Entries(image, g), Limit(g), at) == Listing(Entries(image, h), Limit(h), at)
    ensures Complete(Entries(image, g), Limit(g), at) == Complete(Entries(image, h), Limit(h), at)
    decreases Distance(at, Limit(g))
  {
    hide EntryAt, EntryFails, EntryCost, CachedAfter, BlockCount;
    var step := Entries(image, g);
    SameEntries(image, g, h, at);
    assert AdvancesAt(step, Limit(g), at);
    if step(at).Some? && step(at).value.next.Some? {
      SameListing(image, g, h, step(at).value.next.value);
    }
  }

  lemma {:induction false} SameCursors(image: seq<byte>, g: Header, h: Header, c: Cursor, m: nat)
    requires SamePlace(g, h)
    ensures CursorAfter(image, g, c, m) == CursorAfter(image, h, c, m)
    ensures NextCost(image, g, c) == NextCost(image, h, c)
    decreases m
  {
    hide EntryAt, EntryFails, EntryCost, CachedAfter;
    if c.next.Some? {
      SameEntries(image, g, h, c.next.value);
    }
    if m > 0 {
      SameCursors(image, g, h, c, m - 1);
      var before := CursorAfter(image, g, c, m - 1);
      if before.next.Some? {
        SameEntries(image, g, h, before.next.value);
      }
    }
  }

  lemma SameDirectory(image: seq<byte>, a: Node, b: Node)
    requires a.Directory? && ContentOf(a) == ContentOf(b)
    ensures b.Directory? && SamePlace(a.header, b.header)
    ensures forall name: Text :: Find(image, a.header, name) == Find(image, b.header, name)
  {
    hide Entries, Listing, Complete, Pick;
    EntriesAdvance(image, a.header);
    EntriesAdvance(image, b.header);
    forall name: Text
      ensures Find(image, a.header, name) == Find(image, b.header, name)
    {
      SameListing(image, a.header, b.header, 0);
    }
  }

  lemma SameListed(w: World, a: Node, b: Node, at: nat, m: nat, n: Node)
    requires SamePlace(a.header, b.header) && ListedTo(w, a, at, m, n)
    ensures ListedTo(w, b, at, m, n)
  {
    hide Entries, EntryAt, EntryFails, EntryCost, NextCost, CursorAfter, Listing, Complete, IsDots, SamePlace;
    EntriesAdvance(w.image, a.header);
    EntriesAdvance(w.image, b.header);
    SameListing(w.image, a.header, b.header, at);
    var c := Cursor(None, Some(at));
    SameCursors(w.image, a.header, b.header, c, m);
    var here := CursorAfter(w.image, a.header, c, m);
    SameCursors(w.image, a.header, b.header, here, 0);
    if here.next.Some? {
      SameEntries(w.image, a.header, b.header, here.next.value);
    }
  }

  // ---- chains are no longer than the image ----

  /** The entry whose record is at a place of the image */
  ghost function NodeAt(image: seq<byte>, enc: Encoding, place: nat): Option<Node> {
    match BlockAt(image, place / BLOCK)
    case None => None
    case Some(block) =>
      match ParseRecord(block[place % BLOCK..], enc)
      case Done(p, _) => Meaning(image, p)
      case _ => None
  }

  lemma KeepsEncoding(h: Header, id: Text, es: seq<Susp.Entry>)
    ensures BuildNode(h, id, es).Ok? ==> BuildNode(h, id, es).value.header.encoding == h.encoding
  {
    hide LinkTarget, SplitVersion, MetaOf, FirstChild, Bit;
  }

  lemma EntryIsAt(image: seq<byte>, dir: Header, offset: nat)
    requires EntryAt(image, dir, offset).Some?
    ensures var n, place := EntryAt(image, dir, offset).value.node, dir.location * BLOCK + offset;
            place < |image| && NodeAt(image, dir.encoding, place) == Some(n) && n.header.encoding == dir.encoding
  {
    hide BuildNode, ParseRecord, NextOffset, Collected, AreaEntries;
    var place := dir.location * BLOCK + offset;
    assert place / BLOCK == dir.location + offset / BLOCK && place % BLOCK == offset % BLOCK;
    var block := BlockAt(image, dir.location + offset / BLOCK).value;
    var p := ParseRecord(block[offset % BLOCK..], dir.encoding).value;
    ParsedLength(block[offset % BLOCK..], dir.encoding);
    var es := InlineEntries(p);
    KeepsEncoding(p.header, p.identifier, After(Others(es), Collected(Reading(image), Inline(es))).value);
  }

  lemma {:induction false} ListedIsAtAnOffset(step: Stepper, limit: nat, at: nat, k: nat) returns (offset: nat)
    requires Advances(step, limit) && k < |Listing(step, limit, at)|
    ensures step(offset) == Some(Listing(step, limit, at)[k])
    decreases k
  {
    assert AdvancesAt(step, limit, at);
    offset := at;
    if k > 0 {
      offset := ListedIsAtAnOffset(step, limit, step(at).value.next.value, k - 1);
    }
  }

  /** Every child has its record at a place of the image, in the encoding of its directory. */
  lemma ChildIsAt(w: World, p: Node, n: Node) returns (place: nat)
    requires Child(w, p, n)
    ensures place < |w.image| && NodeAt(w.image, p.header.encoding, place) == Some(n)
    ensures n.header.encoding == p.header.encoding
  {
    hide Entries, EntryAt, Listing, Child, NodeAt, Limit, Advances;
    var dir := p.header;
    EntriesAdvance(w.image, dir);
    var step, limit := Entries(w.image, dir), Limit(dir);
    var at, k := ChildIsListed(w, p, n);
    var offset := ListedIsAtAnOffset(step, limit, at, k);
    EntriesReadAt(w.image, dir, offset);
    EntryIsAt(w.image, dir, offset);
    place := dir.location * BLOCK + offset;
  }

  lemma EntriesReadAt(image: seq<byte>, dir: Header, offset: nat)
    ensures Entries(image, dir)(offset) == EntryAt(image, dir, offset)
  {
  }

  lemma ChildIsListed(w: World, p: Node, n: Node) returns (at: nat, k: nat)
    requires Child(w, p, n) && Advances(Entries(w.image, p.header), Limit(p.header))
    ensures var items := Listing(Entries(w.image, p.header), Limit(p.header), at);
            k < |items| && items[k].node == n
  {
    hide Entries, Listing, Complete, Shown, IsDots, Matches;
    var step, limit := Entries(w.image, p.header), Limit(p.header);
    if name: Text :| Named(w, p, name, n) {
      at := 0;
      var items, complete := Listing(step, limit, 0), Complete(step, limit, 0);
      PicksFirst(items, complete, name);
      k :| k < |items| && Pick(items, complete, name).node == items[k].node;
    } else {
      at :| ListedAt(w, p, at, n);
      var m: nat :| ListedTo(w, p, at, m, n);
      k := 0;
    }
  }

  /** A value that occurs twice, in any list of more numbers below a bound than there are */
  lemma {:induction false} Pigeonhole(ns: seq<nat>, bound: nat) returns (i: nat, j: nat)
    requires |ns| > bound && forall k :: 0 <= k < |ns| ==> ns[k] < bound
    ensures i < j < |ns| && ns[i] == ns[j]
    decreases bound
  {
    assert ns[0] < bound;
    if k :| 0 <= k < |ns| && ns[k] == bound - 1 {
      if m :| 0 <= m < |ns| && m != k && ns[m] == bound - 1 {
        return if m < k then m else k, if m < k then k else m;
      }
      var rest := ns[..k] + ns[k + 1..];
      assert forall m :: 0 <= m < |rest| ==> rest[m] == ns[if m < k then m else m + 1];
      i, j := Pigeonhole(rest, bound - 1);
      return if i < k then i else i + 1, if j < k then j else j + 1;
    } else {
      i, j := Pigeonhole(ns, bound - 1);
    }
  }

  lemma {:induction false} OneEncoding(w: World, root: Node, chain: seq<Node>, k: nat)
    requires Chain(w, root, chain) && k < |chain|
    ensures chain[k].header.encoding == root.header.encoding
    decreases k
  {
    hide Child;
    if k > 0 {
      OneEncoding(w, root, chain, k - 1);
      var place := ChildIsAt(w, chain[k - 1], chain[k]);
    }
  }

  /** A chain that comes to the same entry twice can be cut short in between. */
  lemma CutShort(w: World, root: Node, chain: seq<Node>, i: nat, j: nat)
    requires Chain(w, root, chain) && 0 < i < j < |chain| && chain[i] == chain[j]
    ensures var short := chain[..i] + chain[j..];
            Chain(w, root, short) && Last(short) == Last(chain) && NumberOn(short) == NumberOn(chain)
  {
    hide Child;
    var short := chain[..i] + chain[j..];
    forall k | 0 < k < |short|
      ensures Child(w, short[k - 1], short[k])
    {
      if k < i {
        assert short[k - 1] == chain[k - 1] && short[k] == chain[k];
      } else if k == i {
        assert short[k - 1] == chain[i - 1] && short[k] == chain[i];
      } else {
        var m := k - i + j;
        assert short[k - 1] == chain[m - 1] && short[k] == chain[m];
      }
    }
  }

  /** Where the record of an entry is, if it is anywhere */
  ghost function PlaceOf(image: seq<byte>, enc: Encoding, n: Node): nat {
    if place: nat :| place < |image| && NodeAt(image, enc, place) == Some(n) then place else 0
  }

  lemma ChildHasPlace(w: World, root: Node, chain: seq<Node>, k: nat)
    requires Chain(w, root, chain) && 0 < k < |chain|
    ensures var place := PlaceOf(w.image, root.header.encoding, chain[k]);
            place < |w.image| && NodeAt(w.image, root.header.encoding, place) == Some(chain[k])
  {
    hide Child, NodeAt;
    OneEncoding(w, root, chain, k - 1);
    var place := ChildIsAt(w, chain[k - 1], chain[k]);
  }

  /** What a chain leads to, a chain leads to that has no more links than the image has bytes. */
  lemma {:induction false} ShortChain(w: World, root: Node, chain: seq<Node>) returns (short: seq<Node>)
    requires Chain(w, root, chain)
    ensures Chain(w, root, short) && Last(short) == Last(chain) && NumberOn(short) == NumberOn(chain)
    ensures |short| <= |w.image| + 1
    decreases |chain|
  {
    hide Chain, NodeAt, NumberOn, PlaceOf;
    short := chain;
    if |chain| > |w.image| + 1 {
      var enc := root.header.encoding;
      var places := seq(|chain| - 1, k requires 0 <= k < |chain| - 1 => PlaceOf(w.image, enc, chain[k + 1]));
      forall k | 0 <= k < |places|
        ensures places[k] < |w.image| && NodeAt(w.image, enc, places[k]) == Some(chain[k + 1])
      {
        ChildHasPlace(w, root, chain, k + 1);
      }
      var i, j := Pigeonhole(places, |w.image|);
      CutShort(w, root, chain, i + 1, j + 1);
      short := ShortChain(w, root, chain[..i + 1] + chain[j + 1..]);
    }
  }
}
