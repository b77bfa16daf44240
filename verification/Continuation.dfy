/**
 Following continuation areas (section 5.1 of SUSP): the loop over `CE` entries refines a
 first-in, first-out worklist, and terminates exactly when the areas do not lead back to themselves.
 */
module Continuation {
  import opened Base
  import opened Susp
  import opened BlockDevice

  /** The areas named by the `CE` entries of a list, in order */
  function Areas(es: seq<Entry>): seq<Area> {
    if es == [] then [] else (if es[0].Continuation? then [es[0].area] else []) + Areas(es[1..])
  }

  /** The other entries of a list, in order */
  function Others(es: seq<Entry>): seq<Entry> {
    if es == [] then [] else (if es[0].Continuation? then [] else [es[0]]) + Others(es[1..])
  }

  /** The first fold of `read_entry_at` keeps only the last inline `CE`. */
  function Inline(es: seq<Entry>): seq<Area> {
    var areas := Areas(es);
    if areas == [] then [] else [areas[|areas| - 1]]
  }

  lemma {:induction false} AreasAppend(a: seq<Entry>, b: seq<Entry>)
    ensures Areas(a + b) == Areas(a) + Areas(b)
  {
    if a == [] {
      assert a + b == b;
    } else {
      assert (a + b)[0] == a[0] && (a + b)[1..] == a[1..] + b;
      AreasAppend(a[1..], b);
    }
  }

  lemma {:induction false} OthersAppend(a: seq<Entry>, b: seq<Entry>)
    ensures Others(a + b) == Others(a) + Others(b)
  {
    if a == [] {
      assert a + b == b;
    } else {
      assert (a + b)[0] == a[0] && (a + b)[1..] == a[1..] + b;
      OthersAppend(a[1..], b);
    }
  }

  /** The bytes read for an area: from the start of the block, whatever the `CE` offset is */
  function AreaBytes(image: seq<byte>, a: Area): Option<seq<byte>> {
    var at := a.block * BLOCK;
    if a.length > BLOCK || at + a.length > |image| then None else Some(image[at..at + a.length])
  }

  /** The bytes of an area as section 5.1 of SUSP defines it */
  function SuspBytes(image: seq<byte>, a: Area): Option<seq<byte>> {
    var at := a.block * BLOCK + a.offset;
    if at + a.length > |image| then None else Some(image[at..at + a.length])
  }

  /** The bytes read are the area's on every image exactly for areas within a block that start it (or are empty). */
  lemma OffsetIsIgnored(a: Area)
    ensures (forall image :: SuspBytes(image, a).Some? ==> AreaBytes(image, a) == SuspBytes(image, a))
        <==> a.length <= BLOCK && (a.offset == 0 || a.length == 0)
  {
    var at := a.block * BLOCK;
    var image: seq<byte> := seq(at + a.offset + a.length, k => if k == at then 1 else 0);
    if a.length > BLOCK {
      assert SuspBytes(image, a).Some? && AreaBytes(image, a).None?;
    } else if a.offset != 0 && a.length != 0 {
      assert AreaBytes(image, a).value[0] == 1 && SuspBytes(image, a).value[0] == 0;
    } else {
      forall image | SuspBytes(image, a).Some?
        ensures AreaBytes(image, a) == SuspBytes(image, a)
      {
        assert image[at..at + a.length] == image[at + a.offset..at + a.offset + a.length];
      }
    }
  }

  /** The entries of an area, if it can be read and parsed */
  function AreaEntries(image: seq<byte>, a: Area): Option<seq<Entry>> {
    var bytes := AreaBytes(image, a);
    if bytes.None? then None
    else
      match ParseSystemUse(bytes.value)
      case Done(es, _) => Some(es)
      case _ => None
  }

  /** How an area is read: its entries, or nothing when it cannot be read */
  type Reader = Area -> Option<seq<Entry>>

  function Reading(image: seq<byte>): Reader {
    a => AreaEntries(image, a)
  }

  /** The worklist: take the oldest area, keep its other entries, queue the areas it names. */
  function Visit(read: Reader, queue: seq<Area>, steps: nat): Option<seq<Entry>>
    decreases steps
  {
    if queue == [] then Some([])
    else if steps == 0 then None
    else
      match read(queue[0])
      case None => None
      case Some(es) =>
        match Visit(read, queue[1..] + Areas(es), steps - 1)
        case None => None
        case Some(more) => Some(Others(es) + more)
  }

  /** What the worklist collects, however many steps it takes; `None` if it fails or never ends. */
  ghost function Collected(read: Reader, queue: seq<Area>): Option<seq<Entry>> {
    if n: nat :| Visit(read, queue, n).Some? then Visit(read, queue, n) else None
  }

  function After(front: seq<Entry>, rest: Option<seq<Entry>>): Option<seq<Entry>> {
    if rest.None? then None else Some(front + rest.value)
  }

  lemma {:induction false} VisitSettles(read: Reader, queue: seq<Area>, n: nat, m: nat)
    requires n <= m && Visit(read, queue, n).Some?
    ensures Visit(read, queue, m) == Visit(read, queue, n)
    decreases n
  {
    if queue != [] {
      var es := read(queue[0]).value;
      VisitSettles(read, queue[1..] + Areas(es), n - 1, m - 1);
    }
  }

  lemma CollectedIs(read: Reader, queue: seq<Area>, n: nat)
    requires Visit(read, queue, n).Some?
    ensures Collected(read, queue) == Visit(read, queue, n)
  {
    var m: nat :| Visit(read, queue, m).Some? && Collected(read, queue) == Visit(read, queue, m);
    if m <= n {
      VisitSettles(read, queue, m, n);
    } else {
      VisitSettles(read, queue, n, m);
    }
  }

  /** One step of the worklist. */
  lemma CollectedStep(read: Reader, queue: seq<Area>)
    requires queue != []
    ensures read(queue[0]).None? ==> Collected(read, queue).None?
    ensures read(queue[0]).Some? ==>
              var es := read(queue[0]).value;
              Collected(read, queue) == After(Others(es), Collected(read, queue[1..] + Areas(es)))
  {
    var entries := read(queue[0]);
    if entries.Some? {
      var next := queue[1..] + Areas(entries.value);
      if n: nat :| Visit(read, next, n).Some? {
        CollectedIs(read, next, n);
        CollectedIs(read, queue, n + 1);
      } else {
        assert forall n: nat :: Visit(read, queue, n).Some? ==> n > 0 && Visit(read, next, n - 1).Some?;
      }
    }
  }

  // ---- the loop ----

  /** `position` of the first `CE` entry */
  function FirstContinuation(es: seq<Entry>): (k: Option<nat>)
    ensures k.Some? ==> k.value < |es| && es[k.value].Continuation?
  {
    if es == [] then None
    else if es[0].Continuation? then Some(0)
    else
      match FirstContinuation(es[1..])
      case None => None
      case Some(k) => Some(k + 1)
  }

  lemma {:induction false} NoneBeforeFirst(es: seq<Entry>)
    ensures Areas(es[..if FirstContinuation(es).Some? then FirstContinuation(es).value else |es|]) == []
  {
    if es != [] && !es[0].Continuation? {
      NoneBeforeFirst(es[1..]);
      var k := if FirstContinuation(es).Some? then FirstContinuation(es).value else |es|;
      assert es[..k][0] == es[0] && es[..k][1..] == es[1..][..k - 1];
    }
  }

  /** Takes the first `CE` entry out of the list, leaving the order of the rest. */
  function TakeFirst(es: seq<Entry>): (r: (Option<Area>, seq<Entry>))
    ensures Waiting(r.0) + Areas(r.1) == Areas(es) && Others(r.1) == Others(es)
    ensures r.0.None? ==> Areas(r.1) == []
  {
    NoneBeforeFirst(es);
    match FirstContinuation(es)
    case None => assert es[..|es|] == es; (None, es)
    case Some(k) =>
      var before, after := es[..k], es[k + 1..];
      RemoveOne(before, es[k], after);
      assert before + [es[k]] + after == es;
      (Some(es[k].area), before + after)
  }

  lemma RemoveOne(before: seq<Entry>, e: Entry, after: seq<Entry>)
    requires e.Continuation? && Areas(before) == []
    ensures Areas(before + [e] + after) == [e.area] + Areas(before + after)
    ensures Others(before + [e] + after) == Others(before + after)
  {
    assert [e][1..] == [];
    AreasAppend(before + [e], after); AreasAppend(before, [e]); AreasAppend(before, after);
    OthersAppend(before + [e], after); OthersAppend(before, [e]); OthersAppend(before, after);
  }

  lemma {:induction false} NoAreasNoChange(es: seq<Entry>)
    requires Areas(es) == []
    ensures Others(es) == es
  {
    if es != [] {
      NoAreasNoChange(es[1..]);
    }
  }

  /** The worklist after a number of steps; `None` once it is empty or meets an area it cannot read */
  function QueueAfter(read: Reader, queue: seq<Area>, steps: nat): Option<seq<Area>> {
    if steps == 0 then Some(queue)
    else
      match QueueAfter(read, queue, steps - 1)
      case None => None
      case Some(q) => if q == [] || read(q[0]).None? then None else Some(q[1..] + Areas(read(q[0]).value))
  }

  /** After that many steps there is still an area to follow. */
  predicate Unfinished(read: Reader, queue: seq<Area>, steps: nat) {
    QueueAfter(read, queue, steps).Some? && QueueAfter(read, queue, steps).value != []
  }

  // ---- how many areas are read ----

  lemma {:induction false} UnfinishedBefore(read: Reader, queue: seq<Area>, m: nat, n: nat)
    requires m <= n && Unfinished(read, queue, n)
    ensures Unfinished(read, queue, m)
    decreases n
  {
    if m < n {
      UnfinishedBefore(read, queue, m, n - 1);
    }
  }

  /** The worklist comes to an end, or to an area that cannot be read, in exactly that many steps. */
  ghost predicate StopsAfter(read: Reader, queue: seq<Area>, n: nat) {
    !Unfinished(read, queue, n) && (n > 0 ==> Unfinished(read, queue, n - 1))
  }

  /** The number of areas that are read */
  ghost function Steps(read: Reader, queue: seq<Area>): Cost {
    if n: nat :| StopsAfter(read, queue, n) then Finite(n) else Endless
  }

  lemma StepsIs(read: Reader, queue: seq<Area>, n: nat)
    requires StopsAfter(read, queue, n)
    ensures Steps(read, queue) == Finite(n)
  {
    var m: nat :| StopsAfter(read, queue, m) && Steps(read, queue) == Finite(m);
    assert StopsAfter(read, queue, m);
    if m < n {
      UnfinishedBefore(read, queue, m, n - 1);
    } else if n < m {
      UnfinishedBefore(read, queue, n, m - 1);
    }
  }

  /** As long as there is an area to follow, more reads are to come. */
  lemma StepsToCome(read: Reader, queue: seq<Area>, n: nat)
    requires Unfinished(read, queue, n)
    ensures Steps(read, queue).Finite? ==> Steps(read, queue).value > n
  {
    if m: nat :| StopsAfter(read, queue, m) {
      StepsIs(read, queue, m);
      if m <= n {
        UnfinishedBefore(read, queue, m, n);
      }
    }
  }

  /** A worklist that is not unfinished after some steps has stopped by then. */
  lemma {:induction false} StopsBy(read: Reader, queue: seq<Area>, n: nat)
    requires !Unfinished(read, queue, n)
    ensures Steps(read, queue).Finite? && Steps(read, queue).value <= n
    decreases n
  {
    if n == 0 || Unfinished(read, queue, n - 1) {
      StepsIs(read, queue, n);
    } else {
      StopsBy(read, queue, n - 1);
    }
  }

  lemma {:induction false} QueueAfterFirst(read: Reader, queue: seq<Area>, n: nat)
    requires queue != [] && read(queue[0]).Some?
    ensures QueueAfter(read, queue, n + 1) == QueueAfter(read, queue[1..] + Areas(read(queue[0]).value), n)
  {
    if n > 0 {
      QueueAfterFirst(read, queue, n - 1);
    } else {
      assert QueueAfter(read, queue, 0) == Some(queue);
    }
  }

  lemma {:induction false} VisitStops(read: Reader, queue: seq<Area>, n: nat)
    requires Visit(read, queue, n).Some?
    ensures !Unfinished(read, queue, n)
    decreases n
  {
    if queue == [] {
      if Unfinished(read, queue, n) {
        UnfinishedBefore(read, queue, 0, n);
      }
    } else {
      QueueAfterFirst(read, queue, n - 1);
      VisitStops(read, queue[1..] + Areas(read(queue[0]).value), n - 1);
    }
  }

  /** A worklist with a result takes finitely many reads, at most as many as the steps it is visited in. */
  lemma CollectedStops(read: Reader, queue: seq<Area>)
    ensures Collected(read, queue).Some? ==> Steps(read, queue).Finite?
    ensures forall n: nat :: Visit(read, queue, n).Some? ==> Steps(read, queue).Finite? && Steps(read, queue).value <= n
  {
    forall n: nat | Visit(read, queue, n).Some?
      ensures Steps(read, queue).Finite? && Steps(read, queue).value <= n
    {
      VisitStops(read, queue, n);
      StopsBy(read, queue, n);
    }
  }

  lemma NoSteps(read: Reader)
    ensures Steps(read, []) == Finite(0)
  {
    StepsIs(read, [], 0);
  }

  // ---- how following ends when nothing goes wrong ----

  /** A good read of an area is followed by a panic, and not by an error. */
  predicate AreaPanics(image: seq<byte>, a: Area) {
    var at, count := a.block * BLOCK, Available(image, a.block, BLOCK);
    || (count != BLOCK && count != a.length)
    || a.length > BLOCK
    || (a.length > 0 && ParseSystemUse(image[at..at + a.length]).Panicked?)
  }

  /** The worklist comes to an area at which it panics. */
  ghost predicate ChasePanics(image: seq<byte>, queue: seq<Area>) {
    var read, cost := Reading(image), Steps(Reading(image), queue);
    && cost.Finite? && cost.value > 0
    && var left := QueueAfter(read, queue, cost.value - 1);
       left.Some? && left.value != [] && read(left.value[0]).None? && AreaPanics(image, left.value[0])
  }

  /** A worklist with a result never comes to an area that cannot be read. */
  lemma {:induction false} VisitReadsAll(read: Reader, queue: seq<Area>, n: nat, k: nat)
    requires Visit(read, queue, n).Some? && Unfinished(read, queue, k)
    ensures read(QueueAfter(read, queue, k).value[0]).Some?
    decreases k
  {
    if k > 0 {
      UnfinishedBefore(read, queue, 0, k);
      QueueAfterFirst(read, queue, k - 1);
      VisitReadsAll(read, queue[1..] + Areas(read(queue[0]).value), n - 1, k - 1);
    } else {
      assert QueueAfter(read, queue, 0) == Some(queue);
    }
  }

  lemma PanicHasNoResult(image: seq<byte>, queue: seq<Area>)
    ensures ChasePanics(image, queue) ==> Collected(Reading(image), queue).None?
  {
    hide AreaEntries, AreaPanics, Steps, Areas;
    var read := Reading(image);
    if ChasePanics(image, queue) && Collected(read, queue).Some? {
      var n: nat :| Visit(read, queue, n).Some?;
      VisitReadsAll(read, queue, n, Steps(read, queue).value - 1);
    }
  }

  function Waiting(cont: Option<Area>): seq<Area> {
    if cont.None? then [] else [cont.value]
  }

  /** What one read of an area gives: its entries, or nothing. */
  lemma AreaRead(image: seq<byte>, a: Area, buf: seq<byte>, o: Outcome)
    requires |buf| == BLOCK && !o.Error?
    ensures var n := Count(image, a.block, BLOCK, o);
            (n == BLOCK || n == a.length) && 0 < a.length <= BLOCK ==>
              && a.block * BLOCK + a.length <= |image|
              && Transfer(image, a.block, buf, o)[..a.length] == image[a.block * BLOCK..a.block * BLOCK + a.length]
    ensures var n := Count(image, a.block, BLOCK, o);
            o.Full? && n != BLOCK && n != a.length ==>
              AreaPanics(image, a) && (|image| % BLOCK == 0 ==> AreaEntries(image, a).None?)
    ensures o.Full? && a.length > BLOCK ==> AreaPanics(image, a)
    ensures var n := Count(image, a.block, BLOCK, o);
            o.Full? && (n == BLOCK || n == a.length) && 0 < a.length <= BLOCK ==>
              && a.block * BLOCK + a.length <= |image|
              && (AreaPanics(image, a)
                  <==> ParseSystemUse(image[a.block * BLOCK..a.block * BLOCK + a.length]).Panicked?)
  {
    hide Transfer, ParseSystemUse;
    var n := Count(image, a.block, BLOCK, o);
    if (n == BLOCK || n == a.length) && 0 < a.length <= BLOCK {
      DeliveredBytes(image, a.block, buf, o, a.length);
    }
  }

  lemma EmptyAreaFails(image: seq<byte>, a: Area)
    requires a.length == 0
    ensures ParseSystemUse([]).Fail? && AreaEntries(image, a).None?
  {
    SystemUseTiles([]);
    var at := a.block * BLOCK;
    if at <= |image| {
      assert image[at..at + a.length] == [];
    }
  }

  /** One pass of the loop body: a zeroed block, the read, the size checks and the parser. */
  method ReadArea(dev: Device, a: Area) returns (r: Result<seq<Entry>>)
    modifies dev
    ensures dev.served == old(dev.served) + 1
    ensures r.Ok? ==> Reading(dev.image)(a) == Some(r.value)
    ensures r == Err(Io) <==> old(dev.Next()).Error?
    ensures old(dev.Next()).Full? ==> (r == Err(Panic) <==> AreaPanics(dev.image, a) && r.Err?)
    ensures old(dev.Next()).Full? && dev.WholeBlocks() && r.Err? ==> Reading(dev.image)(a).None?
  {
    var block := new byte[BLOCK](_ => 0);
    ghost var before, o := block[..], dev.Next();
    var count := dev.ReadAt(block, a.block);
    if count.Err? {
      return Err(count.error);
    }
    AreaRead(dev.image, a, before, o);
    if count.value != BLOCK && count.value != a.length {
      return Err(Panic);
    }
    if a.length > BLOCK {
      return Err(Panic);
    }
    if a.length == 0 {
      EmptyAreaFails(dev.image, a);
    }
    match ParseSystemUse(block[..a.length])
    case Done(es, _) => return Ok(es);
    case Fail => return Err(Nom);
    case Panicked => return Err(Panic);
  }

  /** Taking the oldest area and appending its entries keeps what is still to be collected. */
  lemma ChaseStep(read: Reader, a: Area, susp: seq<Entry>, es: seq<Entry>)
    requires read(a) == Some(es)
    ensures After(Others(susp), Collected(read, [a] + Areas(susp)))
         == After(Others(susp + es), Collected(read, Areas(susp + es)))
    ensures ([a] + Areas(susp))[1..] + Areas(es) == Areas(susp + es)
  {
    var queue := [a] + Areas(susp);
    CollectedStep(read, queue);
    AreasAppend(susp, es);
    OthersAppend(susp, es);
    assert queue[1..] + Areas(es) == Areas(susp + es);
    var rest := Collected(read, Areas(susp + es));
    if rest.Some? {
      assert Others(susp) + (Others(es) + rest.value) == Others(susp + es) + rest.value;
    }
  }

  /** What the loop knows: the entries so far and the areas still waiting make up the whole result. */
  ghost predicate Chasing(read: Reader, inline: seq<Entry>, cont: Option<Area>, susp: seq<Entry>, steps: nat) {
    var pending := Waiting(cont) + Areas(susp);
    && After(Others(inline), Collected(read, Inline(inline))) == After(Others(susp), Collected(read, pending))
    && QueueAfter(read, Inline(inline), steps) == Some(pending)
    && (cont.None? ==> Areas(susp) == [])
  }

  lemma ChaseBegins(read: Reader, inline: seq<Entry>, cont: Option<Area>)
    requires Waiting(cont) == Inline(inline)
    ensures Chasing(read, inline, cont, Others(inline), 0)
  {
    OthersHaveNoAreas(inline);
    assert Waiting(cont) + Areas(Others(inline)) == Inline(inline);
  }

  lemma ChaseGoesOn(read: Reader, inline: seq<Entry>, a: Area, susp: seq<Entry>, es: seq<Entry>, steps: nat)
    requires Chasing(read, inline, Some(a), susp, steps) && read(a) == Some(es)
    ensures var (next, rest) := TakeFirst(susp + es);
            Chasing(read, inline, next, rest, steps + 1)
  {
    ChaseStep(read, a, susp, es);
    assert ([a] + Areas(susp))[0] == a;
  }

  lemma ChaseEnds(read: Reader, inline: seq<Entry>, susp: seq<Entry>, steps: nat)
    requires Chasing(read, inline, None, susp, steps)
    ensures Some(susp) == After(Others(inline), Collected(read, Inline(inline)))
    ensures !Unfinished(read, Inline(inline), steps)
  {
    NoAreasNoChange(susp);
    CollectedIs(read, [], 0);
    assert Waiting(None) + Areas(susp) == [] && Others(susp) + [] == susp;
  }

  lemma ChaseFails(read: Reader, inline: seq<Entry>, a: Area, susp: seq<Entry>, steps: nat)
    requires Chasing(read, inline, Some(a), susp, steps)
    ensures read(a).None? ==> Collected(read, Inline(inline)).None? && !Unfinished(read, Inline(inline), steps + 1)
    ensures Unfinished(read, Inline(inline), steps)
  {
    CollectedStep(read, [a] + Areas(susp));
  }

  lemma {:induction false} OthersHaveNoAreas(es: seq<Entry>)
    ensures Areas(Others(es)) == [] && Others(Others(es)) == Others(es)
  {
    if es != [] {
      OthersHaveNoAreas(es[1..]);
      if es[0].Continuation? {
        assert Others(es) == Others(es[1..]);
      } else {
        assert Others(es)[1..] == Others(es[1..]);
      }
    }
  }

  /** The worklist stops at an area that cannot be read. */
  lemma ChaseStopsAt(image: seq<byte>, inline: seq<Entry>, a: Area, susp: seq<Entry>, steps: nat)
    requires Chasing(Reading(image), inline, Some(a), susp, steps) && Reading(image)(a).None?
    ensures Steps(Reading(image), Inline(inline)) == Finite(steps + 1)
    ensures ChasePanics(image, Inline(inline)) <==> AreaPanics(image, a)
    ensures Collected(Reading(image), Inline(inline)).None?
  {
    hide AreaPanics;
    ChaseFails(Reading(image), inline, a, susp, steps);
    StepsIs(Reading(image), Inline(inline), steps + 1);
    assert ([a] + Areas(susp))[0] == a;
  }

  /** The worklist comes to its end. */
  lemma ChaseStops(image: seq<byte>, inline: seq<Entry>, susp: seq<Entry>, steps: nat)
    requires Chasing(Reading(image), inline, None, susp, steps)
    requires steps > 0 ==> Unfinished(Reading(image), Inline(inline), steps - 1)
    ensures Some(susp) == After(Others(inline), Collected(Reading(image), Inline(inline)))
    ensures Steps(Reading(image), Inline(inline)) == Finite(steps)
    ensures !ChasePanics(image, Inline(inline))
  {
    hide AreaPanics, AreaEntries, Collected, Steps, Inline, Others, Areas, After;
    var read, queue := Reading(image), Inline(inline);
    ChaseEnds(read, inline, susp, steps);
    StepsIs(read, queue, steps);
    assert QueueAfter(read, queue, steps).Some?;
  }

  /** What following has come to when reading an area ended with an error */
  lemma ChaseBreaksOff(dev: Device, inline: seq<Entry>, a: Area, susp: seq<Entry>, before: nat, error: Failure)
    requires before < dev.served && Chasing(Reading(dev.image), inline, Some(a), susp, dev.served - before - 1)
    requires var o := OutcomeAt(dev.script, dev.served - 1);
             && (error == Io <==> o.Error?)
             && (o.Full? ==> (error == Panic <==> AreaPanics(dev.image, a)))
             && (o.Full? && dev.WholeBlocks() ==> Reading(dev.image)(a).None?)
    ensures var queue := Inline(inline);
            && dev.Spent(before, Steps(Reading(dev.image), queue))
            && (error == Io <==> dev.LastFailed(before))
            && (dev.CalmSince(before) ==>
                  && error != Io && Collected(Reading(dev.image), queue).None?
                  && (error == Panic <==> ChasePanics(dev.image, queue)))
  {
    hide AreaEntries, AreaPanics, Chasing, Steps, Unfinished, ChasePanics, Collected, Inline, Device.WholeBlocks;
    var read, steps := Reading(dev.image), dev.served - before - 1;
    ChaseFails(read, inline, a, susp, steps);
    StepsToCome(read, Inline(inline), steps);
    if read(a).None? {
      ChaseStopsAt(dev.image, inline, a, susp, steps);
    }
    assert dev.FaultFreeSince(before) ==> OutcomeAt(dev.script, dev.served - 1).Full?;
  }

  /**
   * The continuation loop of `read_entry_at`. Whatever the reads do, a result is the inline entries
   * followed by what the worklist collects from the last inline `CE`, and no more areas are read
   * than the worklist has steps. If none of the reads made goes wrong, and on an image of whole
   * blocks, exactly these areas are read, an error means that the worklist has no result, and a panic
   * that it comes to an area on which the reader panics.
   */
  method FollowContinuations(dev: Device, inline: seq<Entry>) returns (r: Result<seq<Entry>>)
    modifies dev
    ensures dev.Spent(old(dev.served), Steps(Reading(dev.image), Inline(inline)))
    ensures r.Ok? ==>
              && Some(r.value) == After(Others(inline), Collected(Reading(dev.image), Inline(inline)))
              && Steps(Reading(dev.image), Inline(inline)).Finite? && !ChasePanics(dev.image, Inline(inline))
    ensures r.Err? ==> dev.served > old(dev.served)
    ensures r == Err(Io) <==> dev.LastFailed(old(dev.served))
    ensures dev.CalmSince(old(dev.served)) ==>
              && (r.Err? ==> r.error != Io && Collected(Reading(dev.image), Inline(inline)).None?)
              && (r == Err(Panic) <==> ChasePanics(dev.image, Inline(inline)))
  {
    hide AreaEntries, AreaPanics, Chasing, Steps, Unfinished, ChasePanics, Collected, AllFull, Device.WholeBlocks;
    var cont: Option<Area>, susp := None, Others(inline);
    if Areas(inline) != [] {
      cont := Some(Areas(inline)[|Areas(inline)| - 1]);
    }
    ghost var read, queue, before := Reading(dev.image), Inline(inline), dev.served;
    ChaseBegins(read, inline, cont);
    while cont.Some?
      invariant dev.served >= before && !dev.LastFailed(before)
      invariant Chasing(read, inline, cont, susp, dev.served - before)
      invariant dev.served > before ==> Unfinished(read, queue, dev.served - before - 1)
      decreases |dev.script| - dev.served
    {
      ghost var steps := dev.served - before;
      ChaseFails(read, inline, cont.value, susp, steps);
      var entries := ReadArea(dev, cont.value);
      if entries.Err? {
        ChaseBreaksOff(dev, inline, cont.value, susp, before, entries.error);
        return Err(entries.error);
      }
      ChaseGoesOn(read, inline, cont.value, susp, entries.value, steps);
      susp := susp + entries.value;
      var (next, rest) := TakeFirst(susp);
      cont, susp := next, rest;
    }
    ChaseStops(dev.image, inline, susp, dev.served - before);
    return Ok(susp);
  }
}
