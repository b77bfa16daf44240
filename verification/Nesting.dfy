/**
 When following continuation areas comes to an end, and what the walk over areas means for names.
 */
module Nesting {
  import opened Base
  import opened Susp
  import opened Continuation
  import opened RockRidge

  /** The area can be read, and so can all areas it leads to, at most `depth` links away. */
  ghost predicate Nested(read: Reader, a: Area, depth: nat)
    decreases depth
  {
    read(a).Some? &&
    var kids := Areas(read(a).value);
    kids == [] || (depth > 0 && forall b :: b in kids ==> Nested(read, b, depth - 1))
  }

  ghost predicate AllNested(read: Reader, queue: seq<Area>, depth: nat) {
    forall a :: a in queue ==> Nested(read, a, depth)
  }

  lemma {:induction false} NestedDeeper(read: Reader, a: Area, depth: nat)
    requires Nested(read, a, depth)
    ensures Nested(read, a, depth + 1)
    decreases depth
  {
    forall b | b in Areas(read(a).value)
      ensures Nested(read, b, depth)
    {
      NestedDeeper(read, b, depth - 1);
    }
  }

  lemma {:induction false} VisitedIsNested(read: Reader, queue: seq<Area>, n: nat)
    requires Visit(read, queue, n).Some?
    ensures AllNested(read, queue, n)
    decreases n
  {
    if queue != [] {
      var kids := Areas(read(queue[0]).value);
      var next := queue[1..] + kids;
      VisitedIsNested(read, next, n - 1);
      assert forall b :: b in kids ==> b in next;
      forall a | a in queue[1..]
        ensures Nested(read, a, n)
      {
        assert a in next;
        NestedDeeper(read, a, n - 1);
      }
      assert Nested(read, queue[0], n);
      assert queue == [queue[0]] + queue[1..];
    }
  }

  /** How many areas the walk from one area visits, looking `depth` links deep */
  ghost function Weight(read: Reader, a: Area, depth: nat): nat
    decreases depth, 0
  {
    1 + if read(a).None? || depth == 0 then 0 else TotalWeight(read, Areas(read(a).value), depth - 1)
  }

  ghost function TotalWeight(read: Reader, queue: seq<Area>, depth: nat): nat
    decreases depth, 1 + |queue|
  {
    if queue == [] then 0 else Weight(read, queue[0], depth) + TotalWeight(read, queue[1..], depth)
  }

  lemma {:induction false} TotalWeightAppend(read: Reader, a: seq<Area>, b: seq<Area>, depth: nat)
    ensures TotalWeight(read, a + b, depth) == TotalWeight(read, a, depth) + TotalWeight(read, b, depth)
    decreases |a|
  {
    if a == [] {
      assert a + b == b;
    } else {
      assert (a + b)[1..] == a[1..] + b;
      TotalWeightAppend(read, a[1..], b, depth);
    }
  }

  lemma {:induction false} WeightSettles(read: Reader, queue: seq<Area>, depth: nat)
    requires AllNested(read, queue, depth)
    ensures TotalWeight(read, queue, depth + 1) == TotalWeight(read, queue, depth)
    decreases depth, |queue|
  {
    if queue != [] {
      var a := queue[0];
      assert Nested(read, a, depth);
      var kids := Areas(read(a).value);
      if depth > 0 {
        WeightSettles(read, kids, depth - 1);
      }
      WeightSettles(read, queue[1..], depth);
    }
  }

  lemma {:induction false} NestedIsVisited(read: Reader, queue: seq<Area>, depth: nat, n: nat)
    requires AllNested(read, queue, depth) && n == TotalWeight(read, queue, depth)
    ensures Visit(read, queue, n).Some?
    decreases n
  {
    if queue != [] {
      var a := queue[0];
      assert Nested(read, a, depth);
      var kids := Areas(read(a).value);
      var next := queue[1..] + kids;
      forall b | b in kids
        ensures Nested(read, b, depth)
      {
        NestedDeeper(read, b, depth - 1);
      }
      TotalWeightAppend(read, queue[1..], kids, depth);
      if depth > 0 {
        WeightSettles(read, kids, depth - 1);
      }
      NestedIsVisited(read, next, depth, n - 1);
    }
  }

  /**
   * The worklist has a result exactly when every area it leads to can be read and the chains of
   * areas are bounded: a finite tree succeeds, a cycle or an unreadable area does not.
   */
  lemma CollectedIffNested(read: Reader, queue: seq<Area>)
    ensures Collected(read, queue).Some? <==> exists depth: nat :: AllNested(read, queue, depth)
  {
    if n: nat :| Visit(read, queue, n).Some? {
      VisitedIsNested(read, queue, n);
    }
    if depth: nat :| AllNested(read, queue, depth) {
      NestedIsVisited(read, queue, depth, TotalWeight(read, queue, depth));
    }
  }

  /** Areas that all can be read and each lead on to another of them are followed forever. */
  lemma {:induction false} CycleNeverEnds(read: Reader, cycle: set<Area>, queue: seq<Area>, n: nat)
    requires forall a :: a in cycle ==> read(a).Some? && Areas(read(a).value) != []
    requires forall a, b :: a in cycle && b in Areas(read(a).value) ==> b in cycle
    requires queue != [] && forall a :: a in queue ==> a in cycle
    ensures Unfinished(read, queue, n) && forall a :: a in QueueAfter(read, queue, n).value ==> a in cycle
    decreases n
  {
    if n > 0 {
      CycleNeverEnds(read, cycle, queue, n - 1);
      var q := QueueAfter(read, queue, n - 1).value;
      assert q[0] in cycle;
      assert Areas(read(q[0]).value)[0] in Areas(read(q[0]).value);
    }
  }

  lemma {:induction false} NamesAppend(a: seq<Entry>, b: seq<Entry>)
    ensures Names(a + b) == Names(a) + Names(b)
  {
    if a == [] {
      assert a + b == b;
    } else {
      assert (a + b)[0] == a[0] && (a + b)[1..] == a[1..] + b;
      NamesAppend(a[1..], b);
    }
  }

  lemma {:induction false} NamesOfOthers(es: seq<Entry>)
    ensures Names(Others(es)) == Names(es)
  {
    if es != [] {
      NamesOfOthers(es[1..]);
      if es[0].Continuation? {
        assert Others(es) == Others(es[1..]);
      } else {
        assert Others(es)[1..] == Others(es[1..]);
      }
    }
  }

  /** No `CE` entry is left in what the loop hands on. */
  lemma {:induction false} NoContinuationLeft(read: Reader, inline: seq<Entry>, queue: seq<Area>, steps: nat)
    requires Visit(read, queue, steps).Some?
    ensures Areas(Others(inline) + Visit(read, queue, steps).value) == []
    decreases steps
  {
    OthersHaveNoAreas(inline);
    if queue == [] {
      assert Others(inline) + [] == Others(inline);
    } else {
      var es := read(queue[0]).value;
      var more := Visit(read, queue[1..] + Areas(es), steps - 1).value;
      NoContinuationLeft(read, es, queue[1..] + Areas(es), steps - 1);
      AreasAppend(Others(inline), Others(es) + more);
    }
  }

  /** All entries of the visited areas, `CE` entries included, in visit order */
  function Visited(read: Reader, queue: seq<Area>, steps: nat): seq<Entry>
    decreases steps
  {
    if queue == [] || steps == 0 || read(queue[0]).None? then []
    else
      var es := read(queue[0]).value;
      es + Visited(read, queue[1..] + Areas(es), steps - 1)
  }

  lemma {:induction false} NamesOfVisit(read: Reader, queue: seq<Area>, steps: nat)
    requires Visit(read, queue, steps).Some?
    ensures Names(Visit(read, queue, steps).value) == Names(Visited(read, queue, steps))
    decreases steps
  {
    if queue != [] {
      var es := read(queue[0]).value;
      var next := queue[1..] + Areas(es);
      NamesOfVisit(read, next, steps - 1);
      NamesOfOthers(es);
      NamesAppend(es, Visited(read, next, steps - 1));
      NamesAppend(Others(es), Visit(read, next, steps - 1).value);
    }
  }

  /**
   * A name cut over the record and the continuation areas it leads to, in visit order, is given
   * back exactly when every piece is intact, wherever the cuts and the `CE` entries fall.
   */
  lemma NameAcrossAreas(read: Reader, inline: seq<Entry>, steps: nat, fs: seq<seq<byte>>)
    requires Visit(read, Inline(inline), steps).Some?
    requires ParsedFrom(ParseEntry, inline + Visited(read, Inline(inline), steps), fs)
    requires forall f :: f in fs ==> Fits(f) && |f| == f[2] as int
    requires ProperlyCut(fs) && Pieces(fs) != []
    ensures After(Others(inline), Collected(read, Inline(inline))).Some?
    ensures AltName(After(Others(inline), Collected(read, Inline(inline))).value) == Some(Flatten(Pieces(fs)))
        <==> AllIntact(Pieces(fs))
  {
    var queue := Inline(inline);
    CollectedIs(read, queue, steps);
    NamesOfVisit(read, queue, steps);
    NamesOfOthers(inline);
    NamesAppend(inline, Visited(read, queue, steps));
    NamesAppend(Others(inline), Visit(read, queue, steps).value);
    NameReassembly(fs, inline + Visited(read, queue, steps));
  }

  lemma {:induction false} LinksAppend(a: seq<Entry>, b: seq<Entry>)
    ensures Links(a + b) == Links(a) + Links(b)
  {
    if a == [] {
      assert a + b == b;
    } else {
      assert (a + b)[0] == a[0] && (a + b)[1..] == a[1..] + b;
      LinksAppend(a[1..], b);
    }
  }

  lemma {:induction false} LinksOfOthers(es: seq<Entry>)
    ensures Links(Others(es)) == Links(es)
  {
    if es != [] {
      LinksOfOthers(es[1..]);
      if es[0].Continuation? {
        assert Others(es) == Others(es[1..]);
      } else {
        assert Others(es)[1..] == Others(es[1..]);
      }
    }
  }

  lemma {:induction false} LinksOfVisit(read: Reader, queue: seq<Area>, steps: nat)
    requires Visit(read, queue, steps).Some?
    ensures Links(Visit(read, queue, steps).value) == Links(Visited(read, queue, steps))
    decreases steps
  {
    if queue != [] {
      var es := read(queue[0]).value;
      var next := queue[1..] + Areas(es);
      LinksOfVisit(read, next, steps - 1);
      LinksOfOthers(es);
      LinksAppend(es, Visited(read, next, steps - 1));
      LinksAppend(Others(es), Visit(read, next, steps - 1).value);
    }
  }

  /**
   * A link target cut over the record and its continuation areas is that of the component records
   * in visit order, up to the first field that does not continue, wherever the cuts and the `CE`
   * entries fall.
   */
  lemma LinkAcrossAreas(read: Reader, inline: seq<Entry>, steps: nat, fs: seq<seq<byte>>)
    requires Visit(read, Inline(inline), steps).Some?
    requires ParsedFrom(ParseEntry, inline + Visited(read, Inline(inline), steps), fs)
    ensures After(Others(inline), Collected(read, Inline(inline))).Some?
    ensures LinkTarget(After(Others(inline), Collected(read, Inline(inline))).value)
         == TargetOf(AllRecords(ContinuedLinks(Links(inline + Visited(read, Inline(inline), steps)))))
  {
    var queue := Inline(inline);
    CollectedIs(read, queue, steps);
    LinksOfVisit(read, queue, steps);
    LinksOfOthers(inline);
    LinksAppend(inline, Visited(read, queue, steps));
    LinksAppend(Others(inline), Visit(read, queue, steps).value);
    LinkTargetOfRecords(inline + Visited(read, queue, steps), fs);
  }
}
