/**
 Finding entries by name and by path.
 */
module Lookup {
  import opened Base
  import opened Strings
  import opened Record
  import opened DirectoryEntry
  import opened BlockDevice
  import opened Walk
  import opened Directory

  /** What the image says about a name or a path: an entry, that there is none, or an unreadable directory */
  datatype Answer = Found(node: Node) | Missing | Broken

  function AsAnswer(found: Option<Node>): Answer {
    if found.Some? then Found(found.value) else Missing
  }

  predicate Matches(node: Node, name: Text) {
    !node.header.IsAssociated() && SameName(node.name, name)
  }

  /** Looks through a listing; a listing that broke off says nothing about what comes after. */
  function Pick(items: seq<Item>, complete: bool, name: Text): Answer {
    if items == [] then if complete then Missing else Broken
    else if Matches(items[0].node, name) then Found(items[0].node)
    else Pick(items[1..], complete, name)
  }

  /** The first entry that is not an associated file and has that name, up to ASCII case */
  lemma {:induction false} PicksFirst(items: seq<Item>, complete: bool, name: Text)
    ensures Pick(items, complete, name).Found? ==>
              exists k :: 0 <= k < |items| && Pick(items, complete, name).node == items[k].node
                && Matches(items[k].node, name) && forall j :: 0 <= j < k ==> !Matches(items[j].node, name)
    ensures !Pick(items, complete, name).Found? ==> forall k :: 0 <= k < |items| ==> !Matches(items[k].node, name)
    ensures Pick(items, complete, name).Missing? ==> complete
  {
    if items != [] && !Matches(items[0].node, name) {
      var rest := items[1..];
      PicksFirst(rest, complete, name);
      if Pick(rest, complete, name).Found? {
        var k :| 0 <= k < |rest| && Pick(rest, complete, name).node == rest[k].node
          && Matches(rest[k].node, name) && forall j :: 0 <= j < k ==> !Matches(rest[j].node, name);
        assert items[k + 1] == rest[k];
        assert forall j :: 0 <= j < k + 1 ==> !Matches(items[j].node, name) by {
          assert forall j :: 1 <= j < k + 1 ==> items[j] == rest[j - 1];
        }
      } else {
        assert forall k :: 1 <= k < |items| ==> items[k] == rest[k - 1];
      }
    }
  }

  /** What `find` answers on a directory of the image */
  ghost function Find(image: seq<byte>, dir: Header, name: Text): Answer {
    EntriesAdvance(image, dir);
    var step := Entries(image, dir);
    Pick(Listing(step, Limit(dir), 0), Complete(step, Limit(dir), 0), name)
  }

  /** The reads that looking for a name takes from a cursor on: up to the entry found, or the end */
  ghost function FindCostFrom(image: seq<byte>, dir: Header, c: Cursor, name: Text): Cost
    decreases if c.next.Some? then 1 + Distance(c.next.value, Limit(dir)) else 0
  {
    EntriesAdvance(image, dir);
    if c.next.None? then Finite(0)
    else
      match Entries(image, dir)(c.next.value)
      case None => NextCost(image, dir, c)
      case Some(item) =>
        assert AdvancesAt(Entries(image, dir), Limit(dir), c.next.value);
        if Matches(item.node, name) then NextCost(image, dir, c)
        else Plus(NextCost(image, dir, c), FindCostFrom(image, dir, NextCursor(image, dir, c), name))
  }

  /** The reads that `find` takes */
  ghost function FindCost(image: seq<byte>, dir: Header, name: Text): Cost {
    FindCostFrom(image, dir, START, name)
  }

  /** Finding a name, or that there is none, takes finitely many reads. */
  lemma {:induction false} FindCostIsFinite(image: seq<byte>, dir: Header, c: Cursor, name: Text)
    requires Advances(Entries(image, dir), Limit(dir))
    requires Pick(Remaining(Entries(image, dir), Limit(dir), c.next),
                  CompleteFrom(Entries(image, dir), Limit(dir), c.next), name) != Broken
    ensures FindCostFrom(image, dir, c, name).Finite?
    decreases if c.next.Some? then 1 + Distance(c.next.value, Limit(dir)) else 0
  {
    hide EntryAt, EntryCost, SameName;
    if c.next.Some? {
      var step, limit := Entries(image, dir), Limit(dir);
      assert AdvancesAt(step, limit, c.next.value);
      EntryCostIsFinite(image, dir, c.cached, c.next.value);
      if step(c.next.value).Some? && !Matches(step(c.next.value).value.node, name) {
        assert Listing(step, limit, c.next.value)[1..] == Remaining(step, limit, step(c.next.value).value.next);
        FindCostIsFinite(image, dir, NextCursor(image, dir, c), name);
      }
    }
  }

  lemma FoundCostsFinite(image: seq<byte>, dir: Header, name: Text)
    ensures Find(image, dir, name) != Broken ==> FindCost(image, dir, name).Finite?
  {
    hide Entries, Listing, Complete, Pick, FindCostFrom;
    EntriesAdvance(image, dir);
    if Find(image, dir, name) != Broken {
      FindCostIsFinite(image, dir, START, name);
    }
  }

  /** The first call of a search, and what is still to come after it */
  lemma FindCostFirst(image: seq<byte>, dir: Header, c: Cursor, name: Text)
    requires Advances(Entries(image, dir), Limit(dir))
    ensures var left := Remaining(Entries(image, dir), Limit(dir), c.next);
            FindCostFrom(image, dir, c, name) ==
              Plus(NextCost(image, dir, c),
                   if left == [] || Matches(left[0].node, name) then Finite(0)
                   else FindCostFrom(image, dir, NextCursor(image, dir, c), name))
  {
    hide EntryAt, EntryCost, SameName;
    if c.next.Some? {
      assert AdvancesAt(Entries(image, dir), Limit(dir), c.next.value);
    }
  }

  /** The reads of a search whose next entry is known */
  lemma SearchGoesOn(image: seq<byte>, dir: Header, c: Cursor, name: Text, item: Item)
    requires c.next.Some? && EntryAt(image, dir, c.next.value) == Some(item)
    ensures FindCostFrom(image, dir, c, name) ==
              Plus(NextCost(image, dir, c),
                   if Matches(item.node, name) then Finite(0)
                   else FindCostFrom(image, dir, NextCursor(image, dir, c), name))
  {
    hide EntryAt, NextCost, NextCursor, Matches;
    assert Entries(image, dir)(c.next.value) == Some(item);
  }

  /** One call of a search: what is left to be looked through, and how it may end in a panic */
  lemma SearchStep(image: seq<byte>, dir: Header, c: Cursor, name: Text)
    requires Advances(Entries(image, dir), Limit(dir)) && c.next.Some?
    ensures var left := Remaining(Entries(image, dir), Limit(dir), c.next);
            if EntryAt(image, dir, c.next.value).None? then
              && left == [] && !CompleteFrom(Entries(image, dir), Limit(dir), c.next)
              && EndsInPanic(image, dir, c.next) == EntryPanics(image, dir, c.next.value)
            else
              && left != [] && left[0] == EntryAt(image, dir, c.next.value).value
              && EndsInPanic(image, dir, c.next) == EndsInPanic(image, dir, left[0].next)
              && NextCost(image, dir, c).Finite?
  {
    hide EntryAt, EntryCost, EntryPanics;
    assert AdvancesAt(Entries(image, dir), Limit(dir), c.next.value);
    EntryHasBlock(image, dir, c.next.value);
    EntryCostIsFinite(image, dir, c.cached, c.next.value);
  }

  /** A search that costs that much in all has made the reads up to `here`, and still takes the rest. */
  ghost predicate SearchedSoFar(dev: Device, before: nat, here: nat, cost: Cost, spent: nat, rest: Cost) {
    && before <= here <= before + spent && Plus(Finite(spent), rest) == cost
    && (dev.WholeBlocks() && AllFull(dev.script, before, here) ==> here == before + spent)
  }

  lemma SearchBegins(dev: Device, here: nat, cost: Cost)
    ensures SearchedSoFar(dev, here, here, cost, 0, cost)
  {
  }

  /** One call more: what it takes, and what the search takes if it was the last one */
  lemma SearchedMore(dev: Device, before: nat, here: nat, cost: Cost, spent: nat, next: Cost, rest: Cost)
    requires SearchedSoFar(dev, before, here, cost, spent, Plus(next, rest)) && dev.Spent(here, next)
    ensures next.Finite? ==> SearchedSoFar(dev, before, dev.served, cost, spent + next.value, rest)
    ensures rest == Finite(0) || !dev.CalmSince(before) ==> dev.Spent(before, cost)
    ensures dev.CalmSince(before) ==> dev.CalmSince(here)
    ensures before <= here
  {
    hide AllFull, Device.WholeBlocks;
    if dev.FaultFreeSince(before) {
      AllFullWithin(dev.script, before, here, dev.served, dev.served);
      AllFullWithin(dev.script, before, before, here, dev.served);
    }
  }

  lemma SearchEnds(dev: Device, before: nat, here: nat, cost: Cost, spent: nat)
    requires SearchedSoFar(dev, before, here, cost, spent, Finite(0)) && dev.served == here
    ensures dev.Spent(before, cost)
  {
  }

  /**
   * `find`, with any pattern of faults: an answer is the image's answer. If none of the reads made goes
   * wrong, and on whole blocks, an error means that the directory is broken before the name is found,
   * by an entry on which the reader panics if it was a panic; and it took exactly the reads up to there.
   */
  method FindChild(dev: Device, dir: Header, name: Text) returns (r: Result<Option<Node>>)
    modifies dev
    ensures dev.Spent(old(dev.served), FindCost(dev.image, dir, name))
    ensures r.Ok? ==> Find(dev.image, dir, name) == AsAnswer(r.value)
    ensures r == Err(Io) <==> dev.LastFailed(old(dev.served))
    ensures dev.CalmSince(old(dev.served)) && r.Err? ==>
              && r.error != Io && Find(dev.image, dir, name) == Broken
              && (r.error == Panic <==> EndsInPanic(dev.image, dir, Some(0)))
  {
    hide Entries, EntryAt, EntryPanics, Listing, Complete, SameName, NextCost, NextCursor, FindCostFrom, AllFull;
    hide Device.WholeBlocks, Limit, EndsInPanic, SearchedSoFar, Plus;
    var it := new DirectoryIterator(dev, dir);
    assert Find(dev.image, dir, name) == Pick(it.Left(), it.LeftComplete(), name);
    SearchBegins(dev, dev.served, FindCost(dev.image, dir, name));
    ghost var before, cost, spent: nat := dev.served, FindCost(dev.image, dir, name), 0;
    while true
      invariant fresh(it) && fresh(it.block) && it.dev == dev && it.dir == dir && it.Valid()
      invariant !dev.LastFailed(before)
      invariant Find(dev.image, dir, name) == Pick(it.Left(), it.LeftComplete(), name)
      invariant EndsInPanic(dev.image, dir, Some(0)) == EndsInPanic(dev.image, dir, it.next)
      invariant SearchedSoFar(dev, before, dev.served, cost, spent, FindCostFrom(dev.image, dir, it.Here(), name))
      decreases if it.next.Some? then 1 + Distance(it.next.value, Limit(dir)) else 0
    {
      ghost var left, whole, here, served := it.Left(), it.LeftComplete(), it.Here(), dev.served;
      ghost var first := NextCost(dev.image, dir, here);
      EntriesAdvance(dev.image, dir);
      FindCostFirst(dev.image, dir, here, name);
      if it.next.Some? {
        SearchStep(dev.image, dir, here, name);
      }
      var next := it.Next();
      ghost var rest := if left == [] || Matches(left[0].node, name) then Finite(0)
                        else FindCostFrom(dev.image, dir, NextCursor(dev.image, dir, here), name);
      SearchedMore(dev, before, served, cost, spent, first, rest);
      if next.None? {
        return Ok(None);
      }
      if next.value.Err? {
        return Err(next.value.error);
      }
      spent := spent + first.value;
      var entry := next.value.value;
      assert left[0].node == entry && left[1..] == it.Left();
      if entry.header.IsAssociated() {
        continue;
      }
      if SameName(entry.name, name) {
        return Ok(Some(entry));
      }
    }
  }

  // ---- paths ----

  /** One more character in front of a split text */
  function Prepend(c: byte, ss: seq<Text>): (r: seq<Text>)
    requires ss != []
    ensures r != []
  {
    if c == SLASH then [[]] + ss else [[c] + ss[0]] + ss[1..]
  }

  /** `path.split('/')` */
  function Split(path: Text): (ss: seq<Text>)
    ensures ss != []
  {
    if path == [] then [[]] else Prepend(path[0], Split(path[1..]))
  }

  function NonEmpty(ss: seq<Text>): seq<Text> {
    if ss == [] then [] else (if ss[0] == [] then [] else [ss[0]]) + NonEmpty(ss[1..])
  }

  /** The path segments that `find_recursive` goes through */
  function Segments(path: Text): seq<Text> {
    NonEmpty(Split(path))
  }

  lemma PrependAppend(c: byte, a: seq<Text>, b: seq<Text>)
    requires a != []
    ensures Prepend(c, a + b) == Prepend(c, a) + b
  {
    assert (a + b)[0] == a[0] && (a + b)[1..] == a[1..] + b;
  }

  lemma {:induction false} SplitJoins(p: Text, q: Text)
    ensures Split(p + [SLASH] + q) == Split(p) + Split(q)
  {
    var path := p + [SLASH] + q;
    if p == [] {
      assert path[1..] == q;
    } else {
      assert path[0] == p[0] && path[1..] == p[1..] + [SLASH] + q;
      SplitJoins(p[1..], q);
      PrependAppend(p[0], Split(p[1..]), Split(q));
    }
  }

  lemma {:induction false} NonEmptyAppend(a: seq<Text>, b: seq<Text>)
    ensures NonEmpty(a + b) == NonEmpty(a) + NonEmpty(b)
  {
    if a == [] {
      assert a + b == b;
    } else {
      assert (a + b)[0] == a[0] && (a + b)[1..] == a[1..] + b;
      NonEmptyAppend(a[1..], b);
    }
  }

  /** What the image says about a sequence of segments below an entry */
  ghost function Resolve(image: seq<byte>, node: Node, segments: seq<Text>): Answer
    decreases segments
  {
    if segments == [] then Found(node)
    else if !node.Directory? then Missing
    else
      match Find(image, node.header, segments[0])
      case Found(child) => Resolve(image, child, segments[1..])
      case other => other
  }

  /** The reads that going through a sequence of segments takes */
  ghost function ResolveCost(image: seq<byte>, node: Node, segments: seq<Text>): Cost
    decreases segments
  {
    if segments == [] || !node.Directory? then Finite(0)
    else
      Plus(FindCost(image, node.header, segments[0]),
           match Find(image, node.header, segments[0])
           case Found(child) => ResolveCost(image, child, segments[1..])
           case _ => Finite(0))
  }

  /** Going through a sequence of segments ends in a panic when nothing goes wrong. */
  ghost predicate ResolvePanics(image: seq<byte>, node: Node, segments: seq<Text>)
    decreases segments
  {
    && segments != [] && node.Directory?
    && match Find(image, node.header, segments[0])
       case Found(child) => ResolvePanics(image, child, segments[1..])
       case Missing => false
       case Broken => EndsInPanic(image, node.header, Some(0))
  }

  /** `find_recursive` */
  method FindRecursive(dev: Device, dir: Node, path: Text) returns (r: Result<Option<Node>>)
    requires dir.Directory?
    modifies dev
    ensures dev.Spent(old(dev.served), ResolveCost(dev.image, dir, Segments(path)))
    ensures r.Ok? ==> Resolve(dev.image, dir, Segments(path)) == AsAnswer(r.value)
    ensures r == Err(Io) <==> dev.LastFailed(old(dev.served))
    ensures dev.CalmSince(old(dev.served)) && r.Err? ==>
              && r.error != Io && Resolve(dev.image, dir, Segments(path)) == Broken
              && (r.error == Panic <==> ResolvePanics(dev.image, dir, Segments(path)))
  {
    hide Find, FindCost, AllFull, Device.WholeBlocks, Segments, EndsInPanic, SearchedSoFar, Plus;
    var entry, segments, k := dir, Segments(path), 0;
    ghost var before, cost, spent: nat := dev.served, ResolveCost(dev.image, dir, segments), 0;
    assert segments[0..] == segments;
    SearchBegins(dev, before, cost);
    while k < |segments|
      invariant k <= |segments| && !dev.LastFailed(before)
      invariant Resolve(dev.image, dir, segments) == Resolve(dev.image, entry, segments[k..])
      invariant ResolvePanics(dev.image, dir, segments) == ResolvePanics(dev.image, entry, segments[k..])
      invariant SearchedSoFar(dev, before, dev.served, cost, spent, ResolveCost(dev.image, entry, segments[k..]))
    {
      assert segments[k..][0] == segments[k] && segments[k..][1..] == segments[k + 1..];
      ghost var served := dev.served;
      if !entry.Directory? {
        SearchEnds(dev, before, served, cost, spent);
        return Ok(None);
      }
      ghost var first := FindCost(dev.image, entry.header, segments[k]);
      var child := FindChild(dev, entry.header, segments[k]);
      ghost var found := Find(dev.image, entry.header, segments[k]);
      ghost var rest := if found.Found? then ResolveCost(dev.image, found.node, segments[k + 1..]) else Finite(0);
      SearchedMore(dev, before, served, cost, spent, first, rest);
      if child.Err? {
        return Err(child.error);
      }
      if child.value.None? {
        return Ok(None);
      }
      FoundCostsFinite(dev.image, entry.header, segments[k]);
      spent := spent + first.value;
      entry := child.value.value;
      k := k + 1;
    }
    SearchEnds(dev, before, dev.served, cost, spent);
    return Ok(Some(entry));
  }

  lemma {:induction false} ResolveAppend(image: seq<byte>, node: Node, a: seq<Text>, b: seq<Text>)
    ensures Resolve(image, node, a + b) ==
              match Resolve(image, node, a)
              case Found(n) => Resolve(image, n, b)
              case other => other
    decreases a
  {
    hide Find;
    if a == [] {
      assert a + b == b;
    } else {
      assert (a + b)[0] == a[0] && (a + b)[1..] == a[1..] + b;
      if node.Directory? && Find(image, node.header, a[0]).Found? {
        ResolveAppend(image, Find(image, node.header, a[0]).node, a[1..], b);
      }
    }
  }

  /** Resolving `p/q` is resolving p and then, from what was found, q; not found and broken are passed on. */
  lemma PathsCompose(image: seq<byte>, node: Node, p: Text, q: Text)
    ensures Resolve(image, node, Segments(p + [SLASH] + q)) ==
              match Resolve(image, node, Segments(p))
              case Found(n) => Resolve(image, n, Segments(q))
              case other => other
  {
    SplitJoins(p, q);
    NonEmptyAppend(Split(p), Split(q));
    ResolveAppend(image, node, Segments(p), Segments(q));
  }
}
