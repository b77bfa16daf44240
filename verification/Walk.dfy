/**
 Walking a directory by offsets, for any way of reading the entry at an offset: what a walk lists,
 when it is complete, and how it resumes from the offset handed out with an entry.
 */
module Walk {
  import opened Base
  import opened DirectoryEntry

  datatype Item = Item(node: Node, next: Option<nat>)

  /** The entry at an offset and the offset after it; `None` when it cannot be read */
  type Stepper = nat -> Option<Item>

  ghost predicate AdvancesAt(step: Stepper, limit: nat, offset: nat) {
    step(offset).Some? && step(offset).value.next.Some? ==> offset < step(offset).value.next.value < limit
  }

  /** Every step moves on, and stays below the limit. */
  ghost predicate Advances(step: Stepper, limit: nat) {
    forall offset: nat :: AdvancesAt(step, limit, offset)
  }

  ghost function Distance(offset: nat, limit: nat): nat {
    if offset < limit then limit - offset else 0
  }

  /** The entries read from an offset on, up to the end or the first one that cannot be read */
  ghost function Listing(step: Stepper, limit: nat, offset: nat): seq<Item>
    requires Advances(step, limit)
    decreases Distance(offset, limit)
  {
    assert AdvancesAt(step, limit, offset);
    match step(offset)
    case None => []
    case Some(item) => [item] + if item.next.None? then [] else Listing(step, limit, item.next.value)
  }

  lemma ListingStarts(step: Stepper, limit: nat, offset: nat)
    requires Advances(step, limit)
    ensures Listing(step, limit, offset) == [] <==> step(offset).None?
    ensures step(offset).Some? ==> Listing(step, limit, offset)[0] == step(offset).value
  {
  }

  /** Every entry from an offset on can be read. */
  ghost predicate Complete(step: Stepper, limit: nat, offset: nat)
    requires Advances(step, limit)
    decreases Distance(offset, limit)
  {
    assert AdvancesAt(step, limit, offset);
    step(offset).Some? && (step(offset).value.next.None? || Complete(step, limit, step(offset).value.next.value))
  }

  /** The same from a position that may be past the end */
  ghost function Remaining(step: Stepper, limit: nat, at: Option<nat>): seq<Item>
    requires Advances(step, limit)
  {
    if at.None? then [] else Listing(step, limit, at.value)
  }

  ghost predicate CompleteFrom(step: Stepper, limit: nat, at: Option<nat>)
    requires Advances(step, limit)
  {
    at.None? || Complete(step, limit, at.value)
  }

  /** Where all can be read, nothing is left only at the end. */
  lemma SomethingLeft(step: Stepper, limit: nat, at: Option<nat>)
    requires Advances(step, limit) && CompleteFrom(step, limit, at)
    ensures Remaining(step, limit, at) == [] <==> at.None?
  {
  }

  function Nodes(items: seq<Item>): (ns: seq<Node>)
    ensures |ns| == |items|
  {
    if items == [] then [] else [items[0].node] + Nodes(items[1..])
  }

  lemma NodesOneMore(item: Item, items: seq<Item>)
    ensures Nodes([item] + items) == [item.node] + Nodes(items)
  {
    assert ([item] + items)[1..] == items;
  }

  // ---- the entries that a file system server shows ----

  function Shown(items: seq<Item>): seq<Item> {
    if items == [] then []
    else (if items[0].node.meta.relocated then [] else [items[0]]) + Shown(items[1..])
  }

  /** The shown entries from a position on */
  ghost function ShownFrom(step: Stepper, limit: nat, at: Option<nat>): seq<Item>
    requires Advances(step, limit)
  {
    Shown(Remaining(step, limit, at))
  }

  lemma ShownSplits(step: Stepper, limit: nat, offset: nat)
    requires Advances(step, limit) && step(offset).Some?
    ensures var item := step(offset).value;
            ShownFrom(step, limit, Some(offset))
            == (if item.node.meta.relocated then [] else [item]) + ShownFrom(step, limit, item.next)
  {
    assert AdvancesAt(step, limit, offset);
    var item := step(offset).value;
    assert Listing(step, limit, offset)[1..] == Remaining(step, limit, item.next);
  }

  lemma NothingShown(step: Stepper, limit: nat, offset: nat)
    requires Advances(step, limit)
    ensures ShownFrom(step, limit, None) == []
    ensures step(offset).None? ==> ShownFrom(step, limit, Some(offset)) == []
  {
  }

  /** The offset handed out with an entry resumes the walk right after that entry. */
  lemma {:induction false} Resumes(step: Stepper, limit: nat, offset: nat, k: nat)
    requires Advances(step, limit) && k < |ShownFrom(step, limit, Some(offset))|
    ensures ShownFrom(step, limit, ShownFrom(step, limit, Some(offset))[k].next)
         == ShownFrom(step, limit, Some(offset))[k + 1..]
    decreases Distance(offset, limit)
  {
    hide Listing, Shown;
    NothingShown(step, limit, offset);
    ShownSplits(step, limit, offset);
    assert AdvancesAt(step, limit, offset);
    var item := step(offset).value;
    var rest := ShownFrom(step, limit, item.next);
    if item.node.meta.relocated {
      Resumes(step, limit, item.next.value, k);
    } else {
      assert ([item] + rest)[k + 1..] == rest[k..];
      if k > 0 {
        Resumes(step, limit, item.next.value, k - 1);
      }
    }
  }

  /** That offset is within the walk, and everything after it can be read if all could be. */
  lemma {:induction false} ResumesWithin(step: Stepper, limit: nat, offset: nat, k: nat)
    requires Advances(step, limit) && k < |ShownFrom(step, limit, Some(offset))|
    ensures var next := ShownFrom(step, limit, Some(offset))[k].next;
            && (next.Some? ==> next.value < limit)
            && (Complete(step, limit, offset) ==> CompleteFrom(step, limit, next))
    decreases Distance(offset, limit)
  {
    hide Listing, Shown;
    NothingShown(step, limit, offset);
    ShownSplits(step, limit, offset);
    assert AdvancesAt(step, limit, offset);
    var item := step(offset).value;
    if item.node.meta.relocated {
      ResumesWithin(step, limit, item.next.value, k);
    } else if k > 0 {
      ResumesWithin(step, limit, item.next.value, k - 1);
    }
  }

  lemma {:induction false} ShownAppend(a: seq<Item>, b: seq<Item>)
    ensures Shown(a + b) == Shown(a) + Shown(b)
  {
    if a == [] {
      assert a + b == b;
    } else {
      assert (a + b)[0] == a[0] && (a + b)[1..] == a[1..] + b;
      ShownAppend(a[1..], b);
    }
  }

  lemma OneMoreShown(items: seq<Item>, k: nat)
    requires k < |items|
    ensures Shown(items[..k + 1]) == Shown(items[..k]) + if items[k].node.meta.relocated then [] else [items[k]]
  {
    assert items[..k + 1] == items[..k] + [items[k]];
    ShownAppend(items[..k], [items[k]]);
    assert [items[k]][1..] == [];
  }

  /** Where a walk has come to past some entries, and what is left from there */
  lemma {:induction false} WalkedPast(step: Stepper, limit: nat, at: nat, m: nat)
    requires Advances(step, limit) && m <= |Listing(step, limit, at)|
    ensures var items, here := Listing(step, limit, at), Resumption(Some(at), Listing(step, limit, at)[..m]);
            && Remaining(step, limit, here) == items[m..]
            && (CompleteFrom(step, limit, here) <==> Complete(step, limit, at))
            && (m < |items| ==> here.Some? && step(here.value) == Some(items[m]))
            && (m > 0 && here.Some? ==> at < here.value < limit)
    decreases m
  {
    var items := Listing(step, limit, at);
    assert AdvancesAt(step, limit, at);
    if m == 0 {
      assert items[..0] == [] && items[0..] == items;
    } else {
      var next := step(at).value.next;
      if next.None? {
        assert items[..m] == items && items[m..] == [];
      } else {
        var rest := Listing(step, limit, next.value);
        assert items == [step(at).value] + rest && items[1..] == rest;
        WalkedPast(step, limit, next.value, m - 1);
        assert items[m..] == rest[m - 1..] && items[..m] == [step(at).value] + rest[..m - 1];
        assert m - 1 > 0 ==> rest[..m - 1][m - 2] == items[..m][m - 1];
      }
    }
  }

  /** What is shown after that */
  lemma ShownPast(step: Stepper, limit: nat, at: nat, m: nat)
    requires Advances(step, limit) && m <= |Listing(step, limit, at)|
    ensures var items, here := Listing(step, limit, at), Resumption(Some(at), Listing(step, limit, at)[..m]);
            ShownFrom(step, limit, Some(at)) == Shown(items[..m]) + ShownFrom(step, limit, here)
  {
    hide Listing, Shown;
    var items := Listing(step, limit, at);
    WalkedPast(step, limit, at, m);
    assert items == items[..m] + items[m..];
    ShownAppend(items[..m], items[m..]);
  }

  // ---- a session of calls, each restarted where the last accepted entry said ----

  /** One call from a position, with room for some entries: it accepts as many as it can. */
  ghost predicate CallAccepts(step: Stepper, limit: nat, at: Option<nat>, room: nat, accepted: seq<Item>)
    requires Advances(step, limit)
  {
    var shown := ShownFrom(step, limit, at);
    accepted == shown[..Min(room, |shown|)]
  }

  function Resumption(at: Option<nat>, accepted: seq<Item>): Option<nat> {
    if accepted == [] then at else accepted[|accepted| - 1].next
  }

  ghost predicate Session(step: Stepper, limit: nat, at: Option<nat>, rooms: seq<nat>, calls: seq<seq<Item>>)
    requires Advances(step, limit)
    decreases |calls|
  {
    if calls == [] then rooms == []
    else
      && rooms != []
      && CallAccepts(step, limit, at, rooms[0], calls[0])
      && Session(step, limit, Resumption(at, calls[0]), rooms[1..], calls[1..])
  }

  lemma CallSplits(step: Stepper, limit: nat, at: Option<nat>, room: nat, accepted: seq<Item>)
    requires Advances(step, limit) && CallAccepts(step, limit, at, room, accepted)
    ensures ShownFrom(step, limit, at) == accepted + ShownFrom(step, limit, Resumption(at, accepted))
  {
    hide Listing, Shown;
    NothingShown(step, limit, 0);
    var shown := ShownFrom(step, limit, at);
    if accepted != [] {
      Resumes(step, limit, at.value, |accepted| - 1);
    }
    assert shown == shown[..|accepted|] + shown[|accepted|..];
  }

  /**
   * However the reply buffer cuts the calls: over any session the accepted entries are the shown
   * entries in order, none lost or repeated; and once a call with room accepts nothing, they are all.
   */
  lemma {:induction false} SessionListsAll(
      step: Stepper, limit: nat, at: Option<nat>, rooms: seq<nat>, calls: seq<seq<Item>>)
    requires Advances(step, limit) && Session(step, limit, at, rooms, calls)
    ensures |rooms| == |calls|
    ensures Flatten(calls) <= ShownFrom(step, limit, at)
    ensures (exists k :: 0 <= k < |calls| && rooms[k] > 0 && calls[k] == []) ==>
              Flatten(calls) == ShownFrom(step, limit, at)
    decreases |calls|
  {
    if calls != [] {
      var at' := Resumption(at, calls[0]);
      SessionListsAll(step, limit, at', rooms[1..], calls[1..]);
      CallSplits(step, limit, at, rooms[0], calls[0]);
      if k :| 0 <= k < |calls| && rooms[k] > 0 && calls[k] == [] {
        if k == 0 {
          assert ShownFrom(step, limit, at) == [];
        } else {
          assert rooms[1..][k - 1] == rooms[k] && calls[1..][k - 1] == calls[k];
        }
      }
    }
  }

  /**
   * A session in which every call has room lists exactly the shown entries after at most as many
   * calls as there are of them, however small the room is.
   */
  lemma {:induction false} SessionReachesEnd(
      step: Stepper, limit: nat, at: Option<nat>, rooms: seq<nat>, calls: seq<seq<Item>>)
    requires Advances(step, limit) && Session(step, limit, at, rooms, calls)
    requires (forall k :: 0 <= k < |rooms| ==> rooms[k] > 0) && |calls| >= |ShownFrom(step, limit, at)|
    ensures Flatten(calls) == ShownFrom(step, limit, at)
    decreases |calls|
  {
    if calls != [] {
      var at' := Resumption(at, calls[0]);
      CallSplits(step, limit, at, rooms[0], calls[0]);
      if calls[0] == [] {
        assert ShownFrom(step, limit, at) == [];
      }
      SessionReachesEnd(step, limit, at', rooms[1..], calls[1..]);
    }
  }
}
