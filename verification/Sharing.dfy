/**
 Many clients on one device: file readers and directory walks, served in any order, each get what
 they would get alone.
 */
module Sharing {
  import opened Base
  import opened BlockDevice
  import opened Record
  import opened DirectoryEntry
  import opened Walk
  import opened Directory
  import opened Files

  datatype Op = ReadOp(n: nat) | SeekOp(from: SeekFrom)

  datatype Answer = Bytes(data: seq<byte>) | Moved(position: nat) | Refused(error: Failure)

  datatype Event = Event(op: Op, answer: Answer)

  /** The position of a reader after the events of its log; a refused operation does not move it. */
  function PositionAfter(position: nat, log: seq<Event>): nat {
    if log == [] then position
    else
      match Last(log).answer
      case Bytes(data) => PositionAfter(position, Init(log)) + |data|
      case Moved(p) => p
      case Refused(_) => PositionAfter(position, Init(log))
  }

  /** The answer is the one that the file alone determines, or a read failed. */
  ghost predicate Answers(image: seq<byte>, start: u32, size: u32, position: nat, op: Op, answer: Answer) {
    match op
    case ReadOp(n) =>
      || answer == Refused(Io)
      || (&& answer.Bytes? && |answer.data| == ReadCount(size, position, n)
          && ShowsFile(image, start, position, answer.data))
    case SeekOp(from) =>
      var target := SeekTarget(size, position, from);
      answer == if target < 0 then Refused(InvalidSeek) else Moved(target)
  }

  ghost predicate Faithful(image: seq<byte>, start: u32, size: u32, position: nat, log: seq<Event>) {
    log == [] ||
    (Faithful(image, start, size, position, Init(log)) &&
     Answers(image, start, size, PositionAfter(position, Init(log)), Last(log).op, Last(log).answer))
  }

  predicate NothingFailed(log: seq<Event>) {
    forall k :: 0 <= k < |log| ==> log[k].answer != Refused(Io)
  }

  function Ops(log: seq<Event>): (ops: seq<Op>)
    ensures |ops| == |log|
  {
    if log == [] then [] else Ops(Init(log)) + [Last(log).op]
  }

  /**
   * The answers follow from the operations alone: two logs of the same operations on a file that
   * lies in the image, without failed reads, are the same, whatever else went on meanwhile.
   */
  lemma AnswersAreDetermined(
      image: seq<byte>, start: u32, size: u32, position: nat, a: seq<Event>, b: seq<Event>)
    requires start * BLOCK + size <= |image|
    requires Faithful(image, start, size, position, a) && Faithful(image, start, size, position, b)
    requires NothingFailed(a) && NothingFailed(b) && Ops(a) == Ops(b)
    ensures a == b
  {
    LogIsAlone(image, start, size, position, a);
    LogIsAlone(image, start, size, position, b);
  }

  /** The answer of a file that lies in the image, with no device in between */
  function AnswerAlone(image: seq<byte>, start: u32, size: u32, position: nat, op: Op): Answer
    requires start * BLOCK + size <= |image|
  {
    match op
    case ReadOp(n) =>
      var at, count := start * BLOCK + position, ReadCount(size, position, n);
      Bytes(if count == 0 then [] else image[at..at + count])
    case SeekOp(from) =>
      var target := SeekTarget(size, position, from);
      if target < 0 then Refused(InvalidSeek) else Moved(target)
  }

  lemma AnswerIsAlone(image: seq<byte>, start: u32, size: u32, position: nat, op: Op, answer: Answer)
    requires start * BLOCK + size <= |image|
    requires Answers(image, start, size, position, op, answer) && answer != Refused(Io)
    ensures answer == AnswerAlone(image, start, size, position, op)
  {
  }

  /** The log of a client that is alone with its file */
  function Alone(image: seq<byte>, start: u32, size: u32, position: nat, ops: seq<Op>): seq<Event>
    requires start * BLOCK + size <= |image|
  {
    if ops == [] then []
    else
      var before := Alone(image, start, size, position, Init(ops));
      before + [Event(Last(ops), AnswerAlone(image, start, size, PositionAfter(position, before), Last(ops)))]
  }

  /** A faithful log without failed reads is the log of a client alone with its file. */
  lemma {:induction false} LogIsAlone(image: seq<byte>, start: u32, size: u32, position: nat, log: seq<Event>)
    requires start * BLOCK + size <= |image|
    requires Faithful(image, start, size, position, log) && NothingFailed(log)
    ensures log == Alone(image, start, size, position, Ops(log))
    decreases |log|
  {
    hide Answers, AnswerAlone, PositionAfter;
    if log != [] {
      var ops := Ops(log);
      assert Init(ops) == Ops(Init(log)) && Last(ops) == Last(log).op;
      LogIsAlone(image, start, size, position, Init(log));
      assert Last(log).answer != Refused(Io);
      AnswerIsAlone(image, start, size, PositionAfter(position, Init(log)), Last(ops), Last(log).answer);
      assert log == Init(log) + [Last(log)];
    }
  }

  // ---- how many reads clients need ----

  /** Where a reader of a file of that size stands after operations of which none failed */
  function PositionFrom(size: u32, position: nat, ops: seq<Op>): nat {
    if ops == [] then position
    else
      var before := PositionFrom(size, position, Init(ops));
      match Last(ops)
      case ReadOp(n) => before + ReadCount(size, before, n)
      case SeekOp(from) =>
        var target := SeekTarget(size, before, from);
        if target < 0 then before else target
  }

  lemma {:induction false} PositionIsFrom(image: seq<byte>, start: u32, size: u32, position: nat, log: seq<Event>)
    requires Faithful(image, start, size, position, log) && NothingFailed(log)
    ensures PositionAfter(position, log) == PositionFrom(size, position, Ops(log))
    decreases |log|
  {
    hide SeekTarget, ReadCount, ShowsFile;
    if log != [] {
      assert Init(Ops(log)) == Ops(Init(log)) && Last(Ops(log)) == Last(log).op;
      PositionIsFrom(image, start, size, position, Init(log));
      assert Last(log).answer != Refused(Io);
    }
  }

  /** The reads for one operation */
  function OpCost(size: u32, position: nat, op: Op): nat {
    if op.ReadOp? then BlocksRead(size, position, op.n) else 0
  }

  /** The reads for operations one after the other */
  function OpsCost(size: u32, position: nat, ops: seq<Op>): nat {
    if ops == [] then 0
    else OpsCost(size, position, Init(ops)) + OpCost(size, PositionFrom(size, position, Init(ops)), Last(ops))
  }

  lemma OneMoreOp(size: u32, position: nat, ops: seq<Op>, op: Op)
    ensures OpsCost(size, position, ops + [op])
         == OpsCost(size, position, ops) + OpCost(size, PositionFrom(size, position, ops), op)
  {
    assert Init(ops + [op]) == ops;
  }

  lemma {:induction false} FewerOpsCostLess(size: u32, position: nat, ops: seq<Op>, k: nat)
    requires k <= |ops|
    ensures OpsCost(size, position, ops[..k]) <= OpsCost(size, position, ops)
    decreases |ops|
  {
    if k < |ops| {
      assert Init(ops)[..k] == ops[..k];
      FewerOpsCostLess(size, position, Init(ops), k);
    } else {
      assert ops[..k] == ops;
    }
  }

  /** One operation of a reader, as a client sees it */
  method Serve(reader: FileReader, op: Op) returns (answer: Answer)
    requires reader.Sound() && Trusty(reader.dev.script)
    modifies reader, reader.buf, reader.dev
    ensures reader.Sound() && reader.dev.served >= old(reader.dev.served)
    ensures Answers(reader.dev.image, reader.start, reader.size, old(reader.position), op, answer)
    ensures reader.position == PositionAfter(old(reader.position), [Event(op, answer)])
    ensures reader.dev.served <= old(reader.dev.served) + OpCost(reader.size, old(reader.position), op)
    ensures answer == Refused(Io) <==> reader.dev.LastFailed(old(reader.dev.served))
  {
    match op {
    case ReadOp(n) =>
      var out := new byte[n](_ => 0);
      var r := reader.Read(out);
      answer := if r.Ok? then Bytes(out[..r.value]) else Refused(r.error);
    case SeekOp(from) =>
      var r := reader.Seek(from);
      answer := if r.Ok? then Moved(r.value) else Refused(r.error);
    }
    assert Init([Event(op, answer)]) == [];
  }

  datatype Turn = Reader(index: nat, op: Op) | Walker(index: nat)

  /** The operations of the turns of reader `i` */
  function OpsFor(schedule: seq<Turn>, i: nat): seq<Op> {
    if schedule == [] then []
    else
      var before, turn := OpsFor(Init(schedule), i), Last(schedule);
      if turn.Reader? && turn.index == i then before + [turn.op] else before
  }

  /** How many turns walk `i` has */
  function TurnsOf(schedule: seq<Turn>, i: nat): nat {
    if schedule == [] then 0
    else TurnsOf(Init(schedule), i) + if Last(schedule) == Walker(i) then 1 else 0
  }

  lemma OneMoreTurn(turns: seq<Turn>, turn: Turn, i: nat)
    ensures OpsFor(turns + [turn], i) == OpsFor(turns, i) + if turn.Reader? && turn.index == i then [turn.op] else []
    ensures TurnsOf(turns + [turn], i) == TurnsOf(turns, i) + if turn == Walker(i) then 1 else 0
  {
    assert Init(turns + [turn]) == turns && Last(turns + [turn]) == turn;
  }

  /** A file reader as a schedule finds it: the size of its file, and its position */
  datatype Stand = Stand(size: u32, position: nat)

  /** A walk as a schedule finds it */
  datatype Course = Course(dir: Header, cursor: Cursor)

  predicate HasClient(stands: seq<Stand>, courses: seq<Course>, turn: Turn) {
    turn.index < if turn.Reader? then |stands| else |courses|
  }

  /** The reads for one more turn, when nothing has gone wrong in those before */
  ghost function TurnCost(
      image: seq<byte>, stands: seq<Stand>, courses: seq<Course>, before: seq<Turn>, turn: Turn): Cost
    requires HasClient(stands, courses, turn)
  {
    match turn
    case Reader(i, op) =>
      Finite(OpCost(stands[i].size, PositionFrom(stands[i].size, stands[i].position, OpsFor(before, i)), op))
    case Walker(i) =>
      var (dir, cursor) := (courses[i].dir, courses[i].cursor);
      NextCost(image, dir, CursorAfter(image, dir, cursor, TurnsOf(before, i)))
  }

  /** The reads for all turns of a schedule */
  ghost function ScheduleCost(image: seq<byte>, stands: seq<Stand>, courses: seq<Course>, turns: seq<Turn>): Cost
    requires forall t :: t in turns ==> HasClient(stands, courses, t)
  {
    if turns == [] then Finite(0)
    else
      Plus(ScheduleCost(image, stands, courses, Init(turns)),
           TurnCost(image, stands, courses, Init(turns), Last(turns)))
  }

  lemma OneMoreTurnCost(image: seq<byte>, stands: seq<Stand>, courses: seq<Course>, turns: seq<Turn>, turn: Turn)
    requires forall t :: t in turns + [turn] ==> HasClient(stands, courses, t)
    ensures (forall t :: t in turns ==> HasClient(stands, courses, t)) && HasClient(stands, courses, turn)
    ensures ScheduleCost(image, stands, courses, turns + [turn])
         == Plus(ScheduleCost(image, stands, courses, turns), TurnCost(image, stands, courses, turns, turn))
  {
    hide TurnCost, HasClient;
    assert turn in turns + [turn];
    assert Init(turns + [turn]) == turns && Last(turns + [turn]) == turn;
  }

  lemma {:induction false} FewerTurnsCostLess(
      image: seq<byte>, stands: seq<Stand>, courses: seq<Course>, turns: seq<Turn>, k: nat)
    requires k <= |turns| && forall t :: t in turns ==> HasClient(stands, courses, t)
    requires ScheduleCost(image, stands, courses, turns).Finite?
    ensures forall t :: t in turns[..k] ==> HasClient(stands, courses, t)
    ensures var cost := ScheduleCost(image, stands, courses, turns[..k]);
            cost.Finite? && cost.value <= ScheduleCost(image, stands, courses, turns).value
    decreases |turns|
  {
    hide TurnCost, HasClient;
    if k < |turns| {
      assert Init(turns)[..k] == turns[..k];
      FewerTurnsCostLess(image, stands, courses, Init(turns), k);
    } else {
      assert turns[..k] == turns;
    }
  }

  /** What a reader has answered so far, and where it stands */
  ghost predicate KeepsLog(reader: FileReader, position: nat, log: seq<Event>, ops: seq<Op>)
    reads reader, reader.buf
  {
    && reader.Sound()
    && Faithful(reader.dev.image, reader.start, reader.size, position, log)
    && reader.position == PositionAfter(position, log)
    && Ops(log) == ops
  }

  lemma LogGrows(image: seq<byte>, start: u32, size: u32, position: nat, log: seq<Event>, e: Event)
    requires Faithful(image, start, size, position, log)
    requires Answers(image, start, size, PositionAfter(position, log), e.op, e.answer)
    ensures Faithful(image, start, size, position, log + [e])
    ensures PositionAfter(position, log + [e]) == PositionAfter(PositionAfter(position, log), [e])
    ensures Ops(log + [e]) == Ops(log) + [e.op]
  {
    assert Init(log + [e]) == log && Init([e]) == [];
  }

  /** Every reader has answered, from its first position on, the operations of the turns that were its own. */
  ghost predicate AllKeepLogs(readers: seq<FileReader>, positions: seq<nat>, logs: seq<seq<Event>>, turns: seq<Turn>)
    reads readers, set i | 0 <= i < |readers| :: readers[i].buf
  {
    && |positions| == |logs| == |readers|
    && forall i :: 0 <= i < |readers| ==> KeepsLog(readers[i], positions[i], logs[i], OpsFor(turns, i))
  }

  predicate AllAnswered(logs: seq<seq<Event>>) {
    forall i :: 0 <= i < |logs| ==> NothingFailed(logs[i])
  }

  lemma NoneFailed(logs: seq<seq<Event>>, i: nat)
    requires i < |logs|
    ensures AllAnswered(logs) ==> NothingFailed(logs[i])
  {
  }

  lemma OneMoreAnswer(logs: seq<seq<Event>>, i: nat, e: Event)
    requires AllAnswered(logs) && i < |logs| && e.answer != Refused(Io)
    ensures AllAnswered(logs[i := logs[i] + [e]])
  {
    assert NothingFailed(logs[i]);
  }

  ghost predicate Separate(readers: seq<FileReader>) {
    forall i, j :: 0 <= i < j < |readers| ==> readers[i] != readers[j] && readers[i].buf != readers[j].buf
  }

  lemma AllBegin(readers: seq<FileReader>, positions: seq<nat>, logs: seq<seq<Event>>)
    requires |positions| == |logs| == |readers|
    requires forall i :: 0 <= i < |readers| ==>
               readers[i].Sound() && readers[i].position == positions[i] && logs[i] == []
    ensures AllKeepLogs(readers, positions, logs, [])
    ensures AllAnswered(logs)
  {
  }

  method ReaderTurn(readers: seq<FileReader>, i: nat, op: Op, logs: seq<seq<Event>>,
                    ghost positions: seq<nat>, ghost turns: seq<Turn>)
    returns (e: Event)
    requires AllKeepLogs(readers, positions, logs, turns) && Separate(readers)
    requires i < |readers| && Trusty(readers[i].dev.script)
    modifies readers[i], readers[i].buf, readers[i].dev
    ensures readers[i].dev.served >= old(readers[i].dev.served)
    ensures AllKeepLogs(readers, positions, logs[i := logs[i] + [e]], turns + [Reader(i, op)])
    ensures var cost := OpCost(readers[i].size, old(readers[i].position), op);
            readers[i].dev.served <= old(readers[i].dev.served) + cost
    ensures e.op == op && (e.answer == Refused(Io) <==> readers[i].dev.LastFailed(old(readers[i].dev.served)))
  {
    hide Faithful, Answers, OpsFor, Trusty, Agrees, OpCost;
    assert KeepsLog(readers[i], positions[i], logs[i], OpsFor(turns, i));
    var answer := Serve(readers[i], op);
    e := Event(op, answer);
    LogGrows(readers[i].dev.image, readers[i].start, readers[i].size, positions[i], logs[i], e);
    forall j | 0 <= j < |readers|
      ensures KeepsLog(readers[j], positions[j], logs[i := logs[i] + [e]][j], OpsFor(turns + [Reader(i, op)], j))
    {
      OneMoreTurn(turns, Reader(i, op), j);
      assert old(KeepsLog(readers[j], positions[j], logs[j], OpsFor(turns, j)));
    }
  }

  lemma NoReaderTurn(readers: seq<FileReader>, logs: seq<seq<Event>>, positions: seq<nat>, turns: seq<Turn>, i: nat)
    requires AllKeepLogs(readers, positions, logs, turns)
    ensures AllKeepLogs(readers, positions, logs, turns + [Walker(i)])
  {
    forall j | 0 <= j < |readers|
      ensures KeepsLog(readers[j], positions[j], logs[j], OpsFor(turns + [Walker(i)], j))
    {
      OneMoreTurn(turns, Walker(i), j);
    }
  }

  /** A walk has yielded, in order, what the image lists up to where it stands. */
  ghost predicate OnItsWay(it: DirectoryIterator, all: seq<Node>, yielded: seq<Node>)
    reads it, it.block
  {
    it.Valid() && all == yielded + Nodes(it.Left())
  }

  ghost predicate AllOnTheirWay(walkers: seq<DirectoryIterator>, alls: seq<seq<Node>>, yielded: seq<seq<Node>>)
    reads walkers, set i | 0 <= i < |walkers| :: walkers[i].block
  {
    && |alls| == |yielded| == |walkers|
    && forall i :: 0 <= i < |walkers| ==> OnItsWay(walkers[i], alls[i], yielded[i])
  }

  /** Every walk has yielded an entry in each of its turns, as long as there were any. */
  ghost predicate AllMovedOn(alls: seq<seq<Node>>, yielded: seq<seq<Node>>, turns: seq<Turn>) {
    && |alls| == |yielded|
    && forall i :: 0 <= i < |alls| ==> |yielded[i]| == Min(TurnsOf(turns, i), |alls[i]|)
  }

  lemma NoWalkerTurn(alls: seq<seq<Node>>, yielded: seq<seq<Node>>, turns: seq<Turn>, i: nat, op: Op)
    requires AllMovedOn(alls, yielded, turns)
    ensures AllMovedOn(alls, yielded, turns + [Reader(i, op)])
  {
    forall j | 0 <= j < |alls|
      ensures |yielded[j]| == Min(TurnsOf(turns + [Reader(i, op)], j), |alls[j]|)
    {
      OneMoreTurn(turns, Reader(i, op), j);
    }
  }

  lemma OneMovedOn(alls: seq<seq<Node>>, yielded: seq<seq<Node>>, turns: seq<Turn>, i: nat, now: seq<Node>)
    requires AllMovedOn(alls, yielded, turns) && i < |alls| && |now| == Min(|yielded[i]| + 1, |alls[i]|)
    ensures AllMovedOn(alls, yielded[i := now], turns + [Walker(i)])
  {
    forall j | 0 <= j < |alls|
      ensures |yielded[i := now][j]| == Min(TurnsOf(turns + [Walker(i)], j), |alls[j]|)
    {
      OneMoreTurn(turns, Walker(i), j);
    }
  }

  ghost predicate SeparateWalkers(walkers: seq<DirectoryIterator>) {
    forall i, j :: 0 <= i < j < |walkers| ==> walkers[i] != walkers[j] && walkers[i].block != walkers[j].block
  }

  method StepOn(it: DirectoryIterator, ghost all: seq<Node>, yielded: seq<Node>) returns (now: seq<Node>)
    requires OnItsWay(it, all, yielded)
    modifies it, it.block, it.dev
    ensures OnItsWay(it, all, now) && it.dev.Spent(old(it.dev.served), NextCost(it.dev.image, it.dir, old(it.Here())))
    ensures |yielded| <= |now| <= |yielded| + 1 && |now| <= |all|
    ensures it.dev.CalmSince(old(it.dev.served)) ==>
              && it.Here() == NextCursor(it.dev.image, it.dir, old(it.Here()))
              && |now| == Min(|yielded| + 1, |all|)
  {
    hide Entries, EntryAt, EntryPanics, Listing, Complete, Nodes, NextCost, NextCursor, AllFull, Device.WholeBlocks;
    now := yielded;
    var r := it.Next();
    if r.Some? && r.value.Ok? {
      NodesOneMore(Item(r.value.value, it.next), it.Left());
      now := yielded + [r.value.value];
    }
  }

  /** Every walk is where the turns that were its own lead when nothing goes wrong. */
  ghost predicate AllOnCourse(walkers: seq<DirectoryIterator>, courses: seq<Course>, turns: seq<Turn>)
    reads walkers
  {
    && |courses| == |walkers|
    && forall i :: 0 <= i < |walkers| ==>
         && walkers[i].dir == courses[i].dir
         && walkers[i].Here()
            == CursorAfter(walkers[i].dev.image, courses[i].dir, courses[i].cursor, TurnsOf(turns, i))
  }

  lemma NoWalkerMoves(walkers: seq<DirectoryIterator>, courses: seq<Course>, turns: seq<Turn>, i: nat, op: Op)
    requires AllOnCourse(walkers, courses, turns)
    ensures AllOnCourse(walkers, courses, turns + [Reader(i, op)])
  {
    hide CursorAfter;
    forall j | 0 <= j < |walkers|
      ensures TurnsOf(turns + [Reader(i, op)], j) == TurnsOf(turns, j)
    {
      OneMoreTurn(turns, Reader(i, op), j);
    }
  }

  method WalkerTurn(walkers: seq<DirectoryIterator>, i: nat, yielded: seq<seq<Node>>, ghost alls: seq<seq<Node>>,
                    ghost courses: seq<Course>, ghost turns: seq<Turn>)
    returns (now: seq<Node>)
    requires AllOnTheirWay(walkers, alls, yielded) && SeparateWalkers(walkers) && i < |walkers|
    modifies walkers[i], walkers[i].block, walkers[i].dev
    ensures AllOnTheirWay(walkers, alls, yielded[i := now])
    ensures |yielded| == |alls| == |walkers|
    ensures |yielded[i]| <= |now| <= |yielded[i]| + 1 && |now| <= |alls[i]|
    ensures walkers[i].dev.Spent(old(walkers[i].dev.served),
                                 NextCost(walkers[i].dev.image, walkers[i].dir, old(walkers[i].Here())))
    ensures walkers[i].dev.CalmSince(old(walkers[i].dev.served)) ==>
              && |now| == Min(|yielded[i]| + 1, |alls[i]|)
              && (old(AllOnCourse(walkers, courses, turns)) ==> AllOnCourse(walkers, courses, turns + [Walker(i)]))
  {
    hide OnItsWay, NextCost, NextCursor, AllFull, Device.WholeBlocks;
    assert OnItsWay(walkers[i], alls[i], yielded[i]);
    now := StepOn(walkers[i], alls[i], yielded[i]);
    forall j | 0 <= j < |walkers|
      ensures OnItsWay(walkers[j], alls[j], yielded[i := now][j])
    {
      assert old(OnItsWay(walkers[j], alls[j], yielded[j]));
    }
    if old(AllOnCourse(walkers, courses, turns)) {
      forall j | 0 <= j < |walkers|
        ensures TurnsOf(turns + [Walker(i)], j) == TurnsOf(turns, j) + if i == j then 1 else 0
        ensures j != i ==> walkers[j].Here() == old(walkers[j].Here())
      {
        OneMoreTurn(turns, Walker(i), j);
      }
    }
  }

  // ---- what faults cost ----

  function Sum(ns: seq<nat>): nat {
    if ns == [] then 0 else ns[0] + Sum(ns[1..])
  }

  lemma {:induction false} SumOfOther(ns: seq<nat>, i: nat, n: nat)
    requires i < |ns|
    ensures Sum(ns[i := n]) + ns[i] == Sum(ns) + n
  {
    if i > 0 {
      SumOfOther(ns[1..], i - 1, n);
      assert ns[i := n][1..] == ns[1..][i - 1 := n];
    } else {
      assert ns[0 := n][1..] == ns[1..];
    }
  }

  lemma {:induction false} SumIsZero(ns: seq<nat>)
    requires forall k :: 0 <= k < |ns| ==> ns[k] == 0
    ensures Sum(ns) == 0
  {
    if ns != [] {
      SumIsZero(ns[1..]);
    }
  }

  /** How many operations of a reader were refused because a read failed */
  function RefusedReads(log: seq<Event>): nat {
    if log == [] then 0 else RefusedReads(Init(log)) + if Last(log).answer == Refused(Io) then 1 else 0
  }

  /** How many entries a walk has not yielded in its turns though there were any */
  function Missed(turns: nat, all: nat, yielded: nat): nat {
    Max(0, Min(turns, all) - yielded)
  }

  /** The refused operations of all readers */
  function AllRefused(logs: seq<seq<Event>>): seq<nat> {
    Map(RefusedReads, logs)
  }

  /** The missed turns of all walks */
  function AllMissed(alls: seq<seq<Node>>, yielded: seq<seq<Node>>, turns: seq<Turn>): seq<nat>
    requires |alls| == |yielded|
  {
    seq(|alls|, i requires 0 <= i < |alls| => Missed(TurnsOf(turns, i), |alls[i]|, |yielded[i]|))
  }

  /** How many turns have come to nothing without the file or the directory being to blame */
  function Lost(logs: seq<seq<Event>>, alls: seq<seq<Node>>, yielded: seq<seq<Node>>, turns: seq<Turn>): nat
    requires |alls| == |yielded|
  {
    Sum(AllRefused(logs)) + Sum(AllMissed(alls, yielded, turns))
  }

  lemma {:induction false} SumCovers(ns: seq<nat>, i: nat)
    requires i < |ns|
    ensures Sum(ns) >= ns[i]
  {
    if i > 0 {
      SumCovers(ns[1..], i - 1);
    }
  }

  /** What is lost covers the refused operations of any reader and the entries that any walk is behind its turns. */
  lemma LostCovers(logs: seq<seq<Event>>, alls: seq<seq<Node>>, yielded: seq<seq<Node>>, turns: seq<Turn>,
                   i: nat, j: nat)
    requires |alls| == |yielded| && i < |logs| && j < |alls|
    ensures Lost(logs, alls, yielded, turns) >= RefusedReads(logs[i])
    ensures Lost(logs, alls, yielded, turns) + |yielded[j]| >= Min(TurnsOf(turns, j), |alls[j]|)
    ensures Lost(logs, alls, yielded, turns) + |yielded[j]| >= RefusedReads(logs[i]) + Min(TurnsOf(turns, j), |alls[j]|)
            || |yielded[j]| > Min(TurnsOf(turns, j), |alls[j]|)
  {
    hide Sum, RefusedReads, TurnsOf;
    SumCovers(AllRefused(logs), i);
    SumCovers(AllMissed(alls, yielded, turns), j);
  }

  lemma NothingLost(logs: seq<seq<Event>>, alls: seq<seq<Node>>, yielded: seq<seq<Node>>)
    requires |alls| == |yielded| && forall log :: log in logs ==> log == []
    ensures Lost(logs, alls, yielded, []) == 0
  {
    forall k | 0 <= k < |logs|
      ensures AllRefused(logs)[k] == 0
    {
      assert logs[k] in logs;
    }
    SumIsZero(AllRefused(logs));
    SumIsZero(AllMissed(alls, yielded, []));
  }

  lemma OneMoreRefused(log: seq<Event>, e: Event)
    ensures RefusedReads(log + [e]) == RefusedReads(log) + if e.answer == Refused(Io) then 1 else 0
  {
    assert Init(log + [e]) == log;
  }

  /** A turn of a reader is lost if its read fails. */
  lemma LostByReader(logs: seq<seq<Event>>, alls: seq<seq<Node>>, yielded: seq<seq<Node>>, turns: seq<Turn>,
                     i: nat, op: Op, e: Event)
    requires |alls| == |yielded| && i < |logs|
    ensures Lost(logs[i := logs[i] + [e]], alls, yielded, turns + [Reader(i, op)])
         == Lost(logs, alls, yielded, turns) + if e.answer == Refused(Io) then 1 else 0
  {
    hide RefusedReads, TurnsOf, Missed;
    OneMoreRefused(logs[i], e);
    SumOfOther(AllRefused(logs), i, RefusedReads(logs[i] + [e]));
    assert AllRefused(logs[i := logs[i] + [e]]) == AllRefused(logs)[i := RefusedReads(logs[i] + [e])];
    forall j | 0 <= j < |alls|
      ensures TurnsOf(turns + [Reader(i, op)], j) == TurnsOf(turns, j)
    {
      OneMoreTurn(turns, Reader(i, op), j);
    }
    assert AllMissed(alls, yielded, turns + [Reader(i, op)]) == AllMissed(alls, yielded, turns);
  }

  /** A turn of a walk loses at most one entry, and none if it gives the next one. */
  lemma LostByWalker(logs: seq<seq<Event>>, alls: seq<seq<Node>>, yielded: seq<seq<Node>>, turns: seq<Turn>,
                     i: nat, now: seq<Node>)
    requires |alls| == |yielded| && i < |alls| && |yielded[i]| <= |now| <= |alls[i]|
    ensures var lost := Lost(logs, alls, yielded[i := now], turns + [Walker(i)]);
            && lost <= Lost(logs, alls, yielded, turns) + 1
            && (|now| == Min(|yielded[i]| + 1, |alls[i]|) ==> lost <= Lost(logs, alls, yielded, turns))
  {
    hide RefusedReads, TurnsOf;
    var after := Missed(TurnsOf(turns, i) + 1, |alls[i]|, |now|);
    SumOfOther(AllMissed(alls, yielded, turns), i, after);
    forall j | 0 <= j < |alls|
      ensures TurnsOf(turns + [Walker(i)], j) == TurnsOf(turns, j) + if i == j then 1 else 0
    {
      OneMoreTurn(turns, Walker(i), j);
    }
    assert AllMissed(alls, yielded[i := now], turns + [Walker(i)]) == AllMissed(alls, yielded, turns)[i := after];
  }

  /** The clients of one device, each with a buffer of its own */
  ghost predicate Clients(dev: Device, readers: seq<FileReader>, walkers: seq<DirectoryIterator>) {
    && Separate(readers) && SeparateWalkers(walkers)
    && (forall i :: 0 <= i < |readers| ==> readers[i].dev == dev)
    && (forall i :: 0 <= i < |walkers| ==> walkers[i].dev == dev)
    && (forall i, j :: 0 <= i < |readers| && 0 <= j < |walkers| ==> readers[i].buf != walkers[j].block)
  }

  /** A reader that has answered all its operations stands where they lead. */
  lemma StandsThere(readers: seq<FileReader>, positions: seq<nat>, logs: seq<seq<Event>>, turns: seq<Turn>, i: nat)
    requires AllKeepLogs(readers, positions, logs, turns) && AllAnswered(logs) && i < |readers|
    ensures readers[i].position == PositionFrom(readers[i].size, positions[i], OpsFor(turns, i))
  {
    hide Faithful, PositionFrom, PositionAfter, OpsFor, NothingFailed, Agrees;
    assert KeepsLog(readers[i], positions[i], logs[i], OpsFor(turns, i));
    PositionIsFrom(readers[i].dev.image, readers[i].start, readers[i].size, positions[i], logs[i]);
  }

  /** Where every reader stands */
  ghost function StandsOf(readers: seq<FileReader>): (stands: seq<Stand>)
    reads readers
    ensures |stands| == |readers|
    ensures forall i :: 0 <= i < |readers| ==> stands[i] == Stand(readers[i].size, readers[i].position)
  {
    if readers == [] then []
    else StandsOf(Init(readers)) + [Stand(Last(readers).size, Last(readers).position)]
  }

  /** Where every walk is */
  ghost function CoursesOf(walkers: seq<DirectoryIterator>): (courses: seq<Course>)
    reads walkers
    ensures |courses| == |walkers|
    ensures forall i :: 0 <= i < |walkers| ==> courses[i] == Course(walkers[i].dir, walkers[i].Here())
  {
    if walkers == [] then []
    else CoursesOf(Init(walkers)) + [Course(Last(walkers).dir, Last(walkers).Here())]
  }

  predicate HaveClients(readers: seq<FileReader>, walkers: seq<DirectoryIterator>, schedule: seq<Turn>) {
    forall t :: t in schedule ==> t.index < if t.Reader? then |readers| else |walkers|
  }

  /** The reads that a schedule takes from here on */
  ghost function TurnsCost(
      dev: Device, readers: seq<FileReader>, walkers: seq<DirectoryIterator>, schedule: seq<Turn>): Cost
    requires HaveClients(readers, walkers, schedule)
    reads readers, walkers
  {
    ScheduleCost(dev.image, StandsOf(readers), CoursesOf(walkers), schedule)
  }

  /** The image is fit for walks, if there are any. */
  predicate Fit(dev: Device, walkers: seq<DirectoryIterator>) {
    walkers == [] || dev.WholeBlocks()
  }

  /** As many of the coming reads as the cost will go well. */
  predicate Suffices(dev: Device, walkers: seq<DirectoryIterator>, cost: Cost)
    reads dev
  {
    dev.Lasts(cost) && Fit(dev, walkers)
  }

  /** Nothing has gone wrong since there were that many reads. */
  predicate Undisturbed(dev: Device, walkers: seq<DirectoryIterator>, before: nat)
    reads dev
  {
    dev.FaultFreeSince(before) && Fit(dev, walkers)
  }

  /** Every reader of a file that lies in the image has the log of a client alone with its file. */
  ghost predicate AllAsAlone(readers: seq<FileReader>, positions: seq<nat>, logs: seq<seq<Event>>, turns: seq<Turn>) {
    && |readers| == |positions| == |logs|
    && forall i :: 0 <= i < |readers| && readers[i].start * BLOCK + readers[i].size <= |readers[i].dev.image| ==>
         logs[i] == Alone(readers[i].dev.image, readers[i].start, readers[i].size, positions[i], OpsFor(turns, i))
  }

  /** Every walk has given an entry in each of its turns, to the end. */
  ghost predicate AllInTime(alls: seq<seq<Node>>, yielded: seq<seq<Node>>, turns: seq<Turn>) {
    && |alls| == |yielded|
    && forall i :: 0 <= i < |alls| ==> yielded[i] == alls[i][..Min(TurnsOf(turns, i), |alls[i]|)]
  }

  /** What a schedule begins with: the reads served so far, and where the clients stand with what they have left */
  datatype Plan = Plan(served: nat, positions: seq<nat>, stands: seq<Stand>, courses: seq<Course>,
                       alls: seq<seq<Node>>) {
    predicate Covers(turns: seq<Turn>) {
      forall t :: t in turns ==> HasClient(stands, courses, t)
    }
  }

  /** While nothing has gone wrong: all is answered, every walk has moved on, and no more was read than that takes. */
  ghost predicate InOrder(dev: Device, plan: Plan, walkers: seq<DirectoryIterator>, logs: seq<seq<Event>>,
                          yielded: seq<seq<Node>>, turns: seq<Turn>)
    requires plan.Covers(turns)
    reads dev, walkers
  {
    var cost := ScheduleCost(dev.image, plan.stands, plan.courses, turns);
    && AllAnswered(logs)
    && AllMovedOn(plan.alls, yielded, turns)
    && AllOnCourse(walkers, plan.courses, turns)
    && cost.Finite? && dev.served <= plan.served + cost.value
  }

  /** Whatever happens: the logs are right, and the walks are on their way. */
  ghost predicate Going(readers: seq<FileReader>, walkers: seq<DirectoryIterator>, plan: Plan, logs: seq<seq<Event>>,
                        yielded: seq<seq<Node>>, turns: seq<Turn>)
    reads readers, set i | 0 <= i < |readers| :: readers[i].buf
    reads walkers, set i | 0 <= i < |walkers| :: walkers[i].block
  {
    && |logs| == |readers| && |yielded| == |walkers| == |plan.alls|
    && AllKeepLogs(readers, plan.positions, logs, turns)
    && AllOnTheirWay(walkers, plan.alls, yielded)
    && plan.Covers(turns) && |plan.stands| == |readers| && |plan.courses| == |walkers|
    && forall i :: 0 <= i < |readers| ==> plan.stands[i] == Stand(readers[i].size, plan.positions[i])
  }

  lemma WalkerTurnCost(walkers: seq<DirectoryIterator>, stands: seq<Stand>, courses: seq<Course>, turns: seq<Turn>,
                       i: nat)
    requires AllOnCourse(walkers, courses, turns) && i < |walkers|
    ensures TurnCost(walkers[i].dev.image, stands, courses, turns, Walker(i))
         == NextCost(walkers[i].dev.image, walkers[i].dir, walkers[i].Here())
  {
    hide NextCost, CursorAfter, TurnsOf;
  }

  lemma ReaderTurnCost(readers: seq<FileReader>, positions: seq<nat>, logs: seq<seq<Event>>, stands: seq<Stand>,
                       courses: seq<Course>, turns: seq<Turn>, i: nat, op: Op)
    requires AllKeepLogs(readers, positions, logs, turns) && AllAnswered(logs) && i < |readers| == |stands|
    requires stands[i] == Stand(readers[i].size, positions[i])
    ensures TurnCost(readers[i].dev.image, stands, courses, turns, Reader(i, op))
         == Finite(OpCost(readers[i].size, readers[i].position, op))
  {
    hide AllKeepLogs, AllAnswered, OpCost, PositionFrom, OpsFor;
    StandsThere(readers, positions, logs, turns, i);
  }

  /** The reads that one more turn may take, where the clients stand now */
  ghost function TurnCostNow(readers: seq<FileReader>, walkers: seq<DirectoryIterator>, turn: Turn): Cost
    requires turn.index < if turn.Reader? then |readers| else |walkers|
    reads readers, walkers
  {
    match turn
    case Reader(i, op) => Finite(OpCost(readers[i].size, readers[i].position, op))
    case Walker(i) => NextCost(walkers[i].dev.image, walkers[i].dir, walkers[i].Here())
  }

  /** While nothing has gone wrong, that is what the schedule says. */
  lemma TurnCostsThat(dev: Device, readers: seq<FileReader>, walkers: seq<DirectoryIterator>, plan: Plan,
                      logs: seq<seq<Event>>, yielded: seq<seq<Node>>, turns: seq<Turn>, turn: Turn)
    requires Clients(dev, readers, walkers) && Going(readers, walkers, plan, logs, yielded, turns)
    requires InOrder(dev, plan, walkers, logs, yielded, turns)
    requires turn.index < if turn.Reader? then |readers| else |walkers|
    requires HasClient(plan.stands, plan.courses, turn)
    ensures TurnCost(dev.image, plan.stands, plan.courses, turns, turn) == TurnCostNow(readers, walkers, turn)
  {
    hide AllKeepLogs, AllOnTheirWay, AllAnswered, AllMovedOn, AllOnCourse, ScheduleCost, TurnCost, NextCost, OpCost;
    match turn {
      case Walker(i) => WalkerTurnCost(walkers, plan.stands, plan.courses, turns, i);
      case Reader(i, op) =>
        ReaderTurnCost(readers, plan.positions, logs, plan.stands, plan.courses, turns, i, op);
    }
  }

  /** One turn of a client: what it loses, and where it leads if nothing goes wrong */
  method TakeTurn(dev: Device, readers: seq<FileReader>, walkers: seq<DirectoryIterator>, logs: seq<seq<Event>>,
                  yielded: seq<seq<Node>>, turn: Turn, ghost plan: Plan, ghost turns: seq<Turn>)
    returns (logs': seq<seq<Event>>, yielded': seq<seq<Node>>)
    requires Clients(dev, readers, walkers) && Trusty(dev.script)
    requires Going(readers, walkers, plan, logs, yielded, turns) && plan.Covers(turns + [turn])
    requires turn.index < if turn.Reader? then |readers| else |walkers|
    modifies dev, readers, walkers
    modifies set i | 0 <= i < |readers| :: readers[i].buf, set i | 0 <= i < |walkers| :: walkers[i].block
    ensures Going(readers, walkers, plan, logs', yielded', turns + [turn])
    ensures dev.served >= old(dev.served)
    ensures var cost := old(TurnCostNow(readers, walkers, turn));
            && (cost.Finite? ==> dev.served <= old(dev.served) + cost.value)
            && (Undisturbed(dev, walkers, old(dev.served)) ==> cost.Finite?)
    ensures Lost(logs', plan.alls, yielded', turns + [turn]) <= Lost(logs, plan.alls, yielded, turns) + 1
    ensures Undisturbed(dev, walkers, old(dev.served)) ==>
              && Lost(logs', plan.alls, yielded', turns + [turn]) <= Lost(logs, plan.alls, yielded, turns)
              && (AllAnswered(logs) ==> AllAnswered(logs'))
              && (AllMovedOn(plan.alls, yielded, turns) ==> AllMovedOn(plan.alls, yielded', turns + [turn]))
              && (old(AllOnCourse(walkers, plan.courses, turns)) ==> AllOnCourse(walkers, plan.courses, turns + [turn]))
  {
    hide AllKeepLogs, AllOnTheirWay, Trusty, OnItsWay, KeepsLog, Entries, Nodes, Listing, Agrees, Caches;
    hide AllAnswered, AllMovedOn, OpsFor, TurnsOf, AllOnCourse, ScheduleCost, TurnCost, NextCost, OpCost, Lost;
    hide Device.WholeBlocks;
    logs', yielded' := logs, yielded;
    match turn {
      case Walker(i) =>
        var now := WalkerTurn(walkers, i, yielded, plan.alls, plan.courses, turns);
        LostByWalker(logs, plan.alls, yielded, turns, i, now);
        if AllMovedOn(plan.alls, yielded, turns) && |now| == Min(|yielded[i]| + 1, |plan.alls[i]|) {
          OneMovedOn(plan.alls, yielded, turns, i, now);
        }
        yielded' := yielded[i := now];
        NoReaderTurn(readers, logs, plan.positions, turns, i);
      case Reader(i, op) =>
        var e := ReaderTurn(readers, i, op, logs, plan.positions, turns);
        LostByReader(logs, plan.alls, yielded, turns, i, op, e);
        if AllAnswered(logs) && e.answer != Refused(Io) {
          OneMoreAnswer(logs, i, e);
        }
        if AllMovedOn(plan.alls, yielded, turns) {
          NoWalkerTurn(plan.alls, yielded, turns, i, op);
        }
        if old(AllOnCourse(walkers, plan.courses, turns)) {
          NoWalkerMoves(walkers, plan.courses, turns, i, op);
        }
        logs' := logs[i := logs[i] + [e]];
    }
  }

  /** The same with what the schedule as a whole has cost and lost so far */
  method TakeNext(dev: Device, readers: seq<FileReader>, walkers: seq<DirectoryIterator>, logs: seq<seq<Event>>,
                  yielded: seq<seq<Node>>, turn: Turn, ghost plan: Plan, ghost turns: seq<Turn>)
    returns (logs': seq<seq<Event>>, yielded': seq<seq<Node>>)
    requires Clients(dev, readers, walkers) && Trusty(dev.script)
    requires Going(readers, walkers, plan, logs, yielded, turns) && plan.Covers(turns + [turn])
    requires turn.index < if turn.Reader? then |readers| else |walkers|
    requires dev.served >= plan.served
    requires Fit(dev, walkers) ==>
               Lost(logs, plan.alls, yielded, turns) <= Faults(dev.script, plan.served, dev.served)
    requires plan.Covers(turns) && HasClient(plan.stands, plan.courses, turn)
    requires Undisturbed(dev, walkers, plan.served) ==> InOrder(dev, plan, walkers, logs, yielded, turns)
    modifies dev, readers, walkers
    modifies set i | 0 <= i < |readers| :: readers[i].buf, set i | 0 <= i < |walkers| :: walkers[i].block
    ensures Going(readers, walkers, plan, logs', yielded', turns + [turn])
    ensures dev.served >= old(dev.served)
    ensures Fit(dev, walkers) ==>
              Lost(logs', plan.alls, yielded', turns + [turn]) <= Faults(dev.script, plan.served, dev.served)
    ensures Undisturbed(dev, walkers, plan.served) ==>
              InOrder(dev, plan, walkers, logs', yielded', turns + [turn])
    ensures old(Undisturbed(dev, walkers, plan.served)) ==>
              var cost := ScheduleCost(dev.image, plan.stands, plan.courses, turns + [turn]);
              cost.Finite? ==> dev.served <= plan.served + cost.value
  {
    hide AllKeepLogs, AllOnTheirWay, Trusty, OnItsWay, KeepsLog, Entries, Nodes, Listing, Agrees, Caches;
    hide AllAnswered, AllMovedOn, OpsFor, TurnsOf, AllOnCourse, ScheduleCost, TurnCost, TurnCostNow, Lost, Faults;
    hide Device.WholeBlocks, AllFull, Going;
    ghost var here := dev.served;
    OneMoreTurnCost(dev.image, plan.stands, plan.courses, turns, turn);
    if Undisturbed(dev, walkers, plan.served) {
      TurnCostsThat(dev, readers, walkers, plan, logs, yielded, turns, turn);
    }
    logs', yielded' := TakeTurn(dev, readers, walkers, logs, yielded, turn, plan, turns);
    SinceThen(dev, plan.served, here);
  }

  /**
   * File readers and directory walks on one device, in any order of turns and with any faults that
   * spoil no cache: every reader answers its own operations as its file alone determines, and every
   * walk yields its entries in order. A read that goes wrong costs at most one turn: no more turns
   * come to nothing, over all clients, than reads went wrong. If as many of the coming reads as the
   * turns take go well, every reader of a file in the image has the log of a client alone with its
   * file, and every walk gives an entry in each of its turns to the end.
   */
  method Interleave(dev: Device, readers: seq<FileReader>, walkers: seq<DirectoryIterator>, schedule: seq<Turn>,
                    ghost positions: seq<nat>, ghost alls: seq<seq<Node>>)
    returns (logs: seq<seq<Event>>, yielded: seq<seq<Node>>)
    requires Clients(dev, readers, walkers) && Trusty(dev.script)
    requires |positions| == |readers| && |alls| == |walkers|
    requires forall i :: 0 <= i < |readers| ==> readers[i].Sound() && readers[i].position == positions[i]
    requires forall i :: 0 <= i < |walkers| ==> walkers[i].Valid() && alls[i] == Nodes(walkers[i].Left())
    requires HaveClients(readers, walkers, schedule)
    modifies dev, readers, walkers
    modifies set i | 0 <= i < |readers| :: readers[i].buf, set i | 0 <= i < |walkers| :: walkers[i].block
    ensures dev.served >= old(dev.served)
    ensures |logs| == |readers| && AllKeepLogs(readers, positions, logs, schedule)
    ensures |yielded| == |walkers| && AllOnTheirWay(walkers, alls, yielded)
    ensures Fit(dev, walkers) ==>
              Lost(logs, alls, yielded, schedule) <= Faults(dev.script, old(dev.served), dev.served)
    ensures old(Suffices(dev, walkers, TurnsCost(dev, readers, walkers, schedule))) ==>
              Undisturbed(dev, walkers, old(dev.served))
    ensures Undisturbed(dev, walkers, old(dev.served)) ==>
              && dev.SpentAtMost(old(dev.served), old(TurnsCost(dev, readers, walkers, schedule)))
              && AllAnswered(logs) && AllAsAlone(readers, positions, logs, schedule)
              && AllInTime(alls, yielded, schedule)
  {
    hide AllKeepLogs, AllOnTheirWay, Trusty, OnItsWay, KeepsLog, Entries, Nodes, Listing, Agrees, Caches;
    hide AllAnswered, AllMovedOn, OpsFor, TurnsOf, Alone, AllOnCourse, ScheduleCost, TurnCost, NextCost, AllFull;
    hide InOrder, Going, Clients, Lost, Faults, Device.WholeBlocks, AllAsAlone, AllInTime, HaveClients, HasClient;
    hide Plan.Covers, Undisturbed, Suffices, Fit, TurnsCost, Planned;
    logs, yielded := seq(|readers|, _ => []), seq(|walkers|, _ => []);
    ghost var plan := Plan(dev.served, positions, StandsOf(readers), CoursesOf(walkers), alls);
    ghost var cost := TurnsCost(dev, readers, walkers, schedule);
    ghost var enough := Suffices(dev, walkers, cost);
    PlanSuffices(dev, readers, walkers, plan, schedule);
    TurnsBegin(dev, readers, walkers, plan, logs, yielded);
    logs, yielded := TakeAll(dev, readers, walkers, schedule, logs, yielded, plan, enough);
    TurnsEnd(dev, readers, walkers, plan, logs, yielded, schedule);
  }

  /** The turns of a schedule one after the other */
  method TakeAll(dev: Device, readers: seq<FileReader>, walkers: seq<DirectoryIterator>, schedule: seq<Turn>,
                 logs: seq<seq<Event>>, yielded: seq<seq<Node>>, ghost plan: Plan, ghost enough: bool)
    returns (logs': seq<seq<Event>>, yielded': seq<seq<Node>>)
    requires Clients(dev, readers, walkers) && Trusty(dev.script) && Planned(readers, walkers, plan, schedule)
    requires Going(readers, walkers, plan, logs, yielded, []) && plan.Covers([]) && plan.Covers(schedule)
    requires InOrder(dev, plan, walkers, logs, yielded, []) && dev.served == plan.served
    requires |plan.alls| == |yielded| && Lost(logs, plan.alls, yielded, []) == 0
    requires enough ==>
               var cost := ScheduleCost(dev.image, plan.stands, plan.courses, schedule);
               && cost.Finite? && AllFull(dev.script, plan.served, plan.served + cost.value) && Fit(dev, walkers)
               && Undisturbed(dev, walkers, plan.served)
    modifies dev, readers, walkers
    modifies set i | 0 <= i < |readers| :: readers[i].buf, set i | 0 <= i < |walkers| :: walkers[i].block
    ensures Going(readers, walkers, plan, logs', yielded', schedule) && dev.served >= plan.served
    ensures |plan.alls| == |yielded'|
    ensures Fit(dev, walkers) ==>
              Lost(logs', plan.alls, yielded', schedule) <= Faults(dev.script, plan.served, dev.served)
    ensures Undisturbed(dev, walkers, plan.served) ==> InOrder(dev, plan, walkers, logs', yielded', schedule)
    ensures enough ==> Undisturbed(dev, walkers, plan.served)
  {
    hide Trusty, ScheduleCost, AllFull, InOrder, Going, Clients, Lost, Faults, Device.WholeBlocks, HaveClients;
    hide HasClient, Plan.Covers, Undisturbed, Fit, Planned;
    logs', yielded' := logs, yielded;
    assert schedule[..0] == [];
    for k := 0 to |schedule|
      invariant Going(readers, walkers, plan, logs', yielded', schedule[..k]) && plan.Covers(schedule[..k])
      invariant |plan.alls| == |yielded'| && dev.served >= plan.served
      invariant Fit(dev, walkers) ==>
                  Lost(logs', plan.alls, yielded', schedule[..k]) <= Faults(dev.script, plan.served, dev.served)
      invariant Undisturbed(dev, walkers, plan.served) ==>
                  InOrder(dev, plan, walkers, logs', yielded', schedule[..k])
      invariant enough ==> Undisturbed(dev, walkers, plan.served)
    {
      assert schedule[..k + 1] == schedule[..k] + [schedule[k]];
      TurnHasClient(readers, walkers, plan, schedule, k);
      logs', yielded' := TakeNext(dev, readers, walkers, logs', yielded', schedule[k], plan, schedule[..k]);
      SameLengths(readers, walkers, plan, logs', yielded', schedule[..k + 1]);
      if enough {
        StillUndisturbed(dev, readers, walkers, plan, schedule, k + 1);
      }
    }
    assert schedule[..|schedule|] == schedule;
  }

  /** What a schedule of turns is about */
  ghost predicate Planned(readers: seq<FileReader>, walkers: seq<DirectoryIterator>, plan: Plan, schedule: seq<Turn>) {
    && HaveClients(readers, walkers, schedule) && |plan.stands| == |readers| && |plan.courses| == |walkers|
  }

  lemma TurnHasClient(readers: seq<FileReader>, walkers: seq<DirectoryIterator>, plan: Plan, schedule: seq<Turn>,
                      k: nat)
    requires Planned(readers, walkers, plan, schedule) && k < |schedule|
    ensures schedule[k].index < if schedule[k].Reader? then |readers| else |walkers|
    ensures HasClient(plan.stands, plan.courses, schedule[k])
    ensures plan.Covers(schedule[..k]) && plan.Covers(schedule[..k] + [schedule[k]]) && plan.Covers(schedule)
  {
    assert schedule[k] in schedule;
    forall t | t in schedule[..k] + [schedule[k]]
      ensures HasClient(plan.stands, plan.courses, t)
    {
      assert t in schedule;
    }
  }

  /** As long as no more is read than the first turns take, and the coming reads go well, nothing has gone wrong. */
  lemma StillUndisturbed(dev: Device, readers: seq<FileReader>, walkers: seq<DirectoryIterator>, plan: Plan,
                         schedule: seq<Turn>, k: nat)
    requires Planned(readers, walkers, plan, schedule) && k <= |schedule|
    requires plan.Covers(schedule) && plan.Covers(schedule[..k]) && Fit(dev, walkers)
    requires var cost := ScheduleCost(dev.image, plan.stands, plan.courses, schedule);
             cost.Finite? && AllFull(dev.script, plan.served, plan.served + cost.value)
    requires var cost := ScheduleCost(dev.image, plan.stands, plan.courses, schedule[..k]);
             cost.Finite? ==> dev.served <= plan.served + cost.value
    ensures Undisturbed(dev, walkers, plan.served)
  {
    hide ScheduleCost, AllFull, HaveClients, HasClient;
    var cost := ScheduleCost(dev.image, plan.stands, plan.courses, schedule);
    FewerTurnsCostLess(dev.image, plan.stands, plan.courses, schedule, k);
    dev.LastedSince(plan.served, cost);
  }

  lemma PlanSuffices(dev: Device, readers: seq<FileReader>, walkers: seq<DirectoryIterator>, plan: Plan,
                     schedule: seq<Turn>)
    requires HaveClients(readers, walkers, schedule) && plan.served == dev.served
    requires plan.stands == StandsOf(readers) && plan.courses == CoursesOf(walkers)
    ensures Planned(readers, walkers, plan, schedule) && plan.Covers(schedule) && plan.Covers([])
    ensures TurnsCost(dev, readers, walkers, schedule) == ScheduleCost(dev.image, plan.stands, plan.courses, schedule)
    ensures var cost := TurnsCost(dev, readers, walkers, schedule);
            Suffices(dev, walkers, cost) ==>
              && cost.Finite? && AllFull(dev.script, plan.served, plan.served + cost.value) && Fit(dev, walkers)
              && Undisturbed(dev, walkers, plan.served)
  {
    hide ScheduleCost;
    assert forall t :: t in schedule ==> HasClient(plan.stands, plan.courses, t);
  }

  lemma SameLengths(readers: seq<FileReader>, walkers: seq<DirectoryIterator>, plan: Plan, logs: seq<seq<Event>>,
                    yielded: seq<seq<Node>>, turns: seq<Turn>)
    requires Going(readers, walkers, plan, logs, yielded, turns)
    ensures |yielded| == |plan.alls|
  {
  }

  lemma TurnsBegin(dev: Device, readers: seq<FileReader>, walkers: seq<DirectoryIterator>, plan: Plan,
                   logs: seq<seq<Event>>, yielded: seq<seq<Node>>)
    requires Clients(dev, readers, walkers)
    requires |plan.positions| == |readers| == |logs| && |plan.alls| == |walkers| == |yielded|
    requires forall i :: 0 <= i < |readers| ==>
               readers[i].Sound() && readers[i].position == plan.positions[i] && logs[i] == []
    requires forall i :: 0 <= i < |walkers| ==>
               walkers[i].Valid() && plan.alls[i] == Nodes(walkers[i].Left()) && yielded[i] == []
    requires plan.stands == StandsOf(readers) && plan.courses == CoursesOf(walkers) && plan.served == dev.served
    ensures Going(readers, walkers, plan, logs, yielded, [])
    ensures InOrder(dev, plan, walkers, logs, yielded, [])
    ensures dev.FaultFreeSince(dev.served)
    ensures Lost(logs, plan.alls, yielded, []) == 0
  {
    hide AllKeepLogs, AllOnTheirWay, OnItsWay, KeepsLog, Entries, Nodes, Listing, Agrees, Caches;
    hide AllAnswered, AllMovedOn, AllOnCourse;
    AllBegin(readers, plan.positions, logs);
    NothingLost(logs, plan.alls, yielded);
    AllSetOut(walkers, plan.alls, yielded);
    AllOnCourseFirst(dev, walkers);
    NoTurns(dev.image, plan.stands, plan.courses);
  }

  lemma TurnsEnd(dev: Device, readers: seq<FileReader>, walkers: seq<DirectoryIterator>, plan: Plan,
                 logs: seq<seq<Event>>, yielded: seq<seq<Node>>, schedule: seq<Turn>)
    requires Clients(dev, readers, walkers) && Going(readers, walkers, plan, logs, yielded, schedule)
    requires dev.served >= plan.served
    requires Undisturbed(dev, walkers, plan.served) ==> InOrder(dev, plan, walkers, logs, yielded, schedule)
    ensures |logs| == |readers| && AllKeepLogs(readers, plan.positions, logs, schedule)
    ensures |yielded| == |walkers| && AllOnTheirWay(walkers, plan.alls, yielded)
    ensures Undisturbed(dev, walkers, plan.served) ==>
              && dev.SpentAtMost(plan.served, ScheduleCost(dev.image, plan.stands, plan.courses, schedule))
              && AllAnswered(logs) && AllAsAlone(readers, plan.positions, logs, schedule)
              && AllInTime(plan.alls, yielded, schedule)
  {
    hide AllKeepLogs, AllOnTheirWay, OnItsWay, KeepsLog, Entries, Nodes, Listing, Agrees, Caches;
    hide AllAnswered, AllMovedOn, AllOnCourse, OpsFor, TurnsOf, Alone, ScheduleCost;
    if Undisturbed(dev, walkers, plan.served) {
      AllAlone(readers, plan.positions, logs, schedule);
      AllInStep(walkers, plan.alls, yielded, schedule);
    }
  }

  lemma AllOnCourseFirst(dev: Device, walkers: seq<DirectoryIterator>)
    requires forall i :: 0 <= i < |walkers| ==> walkers[i].dev == dev
    ensures AllOnCourse(walkers, CoursesOf(walkers), [])
  {
    hide NextCursor;
  }

  lemma NoTurns(image: seq<byte>, stands: seq<Stand>, courses: seq<Course>)
    ensures ScheduleCost(image, stands, courses, []) == Finite(0)
  {
  }

  lemma AllAlone(readers: seq<FileReader>, positions: seq<nat>, logs: seq<seq<Event>>, turns: seq<Turn>)
    requires AllKeepLogs(readers, positions, logs, turns) && AllAnswered(logs)
    ensures AllAsAlone(readers, positions, logs, turns)
  {
    hide Faithful, Alone, OpsFor, NothingFailed, Agrees;
    forall i | 0 <= i < |readers| && readers[i].start * BLOCK + readers[i].size <= |readers[i].dev.image|
      ensures logs[i] == Alone(readers[i].dev.image, readers[i].start, readers[i].size, positions[i], OpsFor(turns, i))
    {
      assert KeepsLog(readers[i], positions[i], logs[i], OpsFor(turns, i));
      LogIsAlone(readers[i].dev.image, readers[i].start, readers[i].size, positions[i], logs[i]);
    }
  }

  lemma AllInStep(walkers: seq<DirectoryIterator>, alls: seq<seq<Node>>, yielded: seq<seq<Node>>, turns: seq<Turn>)
    requires AllOnTheirWay(walkers, alls, yielded) && AllMovedOn(alls, yielded, turns)
    ensures AllInTime(alls, yielded, turns)
  {
    hide Entries, Nodes, Listing, TurnsOf;
    forall i | 0 <= i < |walkers|
      ensures yielded[i] == alls[i][..Min(TurnsOf(turns, i), |alls[i]|)]
    {
      assert OnItsWay(walkers[i], alls[i], yielded[i]);
    }
  }

  lemma LogBegins(reader: FileReader)
    requires reader.Sound()
    ensures KeepsLog(reader, reader.position, [], [])
  {
  }

  /** A client that has the device to itself */
  method ServeAlone(reader: FileReader, ops: seq<Op>) returns (log: seq<Event>)
    requires reader.Sound() && Trusty(reader.dev.script)
    modifies reader, reader.buf, reader.dev
    ensures KeepsLog(reader, old(reader.position), log, ops)
    ensures old(reader.dev.Lasts(Finite(OpsCost(reader.size, reader.position, ops)))) ==> NothingFailed(log)
  {
    hide Faithful, Answers, Trusty, Agrees, OpCost, PositionFrom, OpsCost;
    log := [];
    ghost var position := reader.position;
    ghost var before, cost := reader.dev.served, OpsCost(reader.size, position, ops);
    ghost var enough := reader.dev.Lasts(Finite(cost));
    LogBegins(reader);
    NoOps(reader.size, position);
    for k := 0 to |ops|
      invariant KeepsLog(reader, position, log, ops[..k]) && reader.dev.served >= before
      invariant enough ==>
                  && NothingFailed(log)
                  && reader.dev.served <= old(reader.dev.served) + OpsCost(reader.size, position, ops[..k])
    {
      assert ops[..k + 1] == ops[..k] + [ops[k]];
      if enough {
        PositionIsFrom(reader.dev.image, reader.start, reader.size, position, log);
        OneMoreOp(reader.size, position, ops[..k], ops[k]);
        FewerOpsCostLess(reader.size, position, ops, k + 1);
      }
      ghost var here := reader.dev.served;
      var answer := Serve(reader, ops[k]);
      if enough {
        AllFullWithin(reader.dev.script, before, here, before + cost, before + cost);
        WithinGood(reader.dev, here, before + cost);
      }
      LogGrows(reader.dev.image, reader.start, reader.size, position, log, Event(ops[k], answer));
      log := log + [Event(ops[k], answer)];
    }
    assert ops[..|ops|] == ops;
  }

  lemma NoOps(size: u32, position: nat)
    ensures OpsCost(size, position, []) == 0
  {
  }

  /** A walk that has the device to itself */
  method WalkAlone(walker: DirectoryIterator, turns: nat) returns (nodes: seq<Node>)
    requires walker.Valid()
    modifies walker, walker.block, walker.dev
    ensures OnItsWay(walker, Nodes(old(walker.Left())), nodes)
    ensures old(walker.dev.Quiet(CallsCost(walker.dev.image, walker.dir, walker.Here(), turns))) ==>
              nodes == Nodes(old(walker.Left()))[..Min(turns, |old(walker.Left())|)]
  {
    hide Entries, Nodes, Listing, Caches, CallsCost;
    var errors;
    nodes, errors := Run(walker, turns);
  }

  /** A reader of a file at a position, with a device of its own */
  method SoleReader(image: seq<byte>, script: seq<Outcome>, start: u32, size: u32, position: nat)
    returns (reader: FileReader)
    ensures fresh(reader) && fresh(reader.buf) && fresh(reader.dev) && reader.Sound()
    ensures reader.dev.image == image && reader.dev.script == script
    ensures reader.start == start && reader.size == size && reader.position == position && reader.dev.served == 0
  {
    var dev := new Device(image, script);
    reader := new FileReader(dev, start, size);
    reader.position := position;
  }

  /** A walk over a directory from an offset, with a device of its own */
  method SoleWalker(image: seq<byte>, script: seq<Outcome>, dir: Header, next: Option<nat>)
    returns (walker: DirectoryIterator)
    ensures fresh(walker) && fresh(walker.block) && fresh(walker.dev) && walker.Valid()
    ensures walker.dev.image == image && walker.dev.script == script && walker.dir == dir
    ensures walker.Here() == Cursor(None, next) && walker.dev.served == 0
  {
    var dev := new Device(image, script);
    walker := new DirectoryIterator(dev, dir);
    walker.next := next;
  }

  /** One reader and one walk among all the clients of a device */
  method Share(dev: Device, readers: seq<FileReader>, walkers: seq<DirectoryIterator>, schedule: seq<Turn>,
               i: nat, j: nat)
    returns (log: seq<Event>, nodes: seq<Node>)
    requires Clients(dev, readers, walkers) && Trusty(dev.script)
    requires forall k :: 0 <= k < |readers| ==> readers[k].Sound()
    requires forall k :: 0 <= k < |walkers| ==> walkers[k].Valid()
    requires HaveClients(readers, walkers, schedule) && i < |readers| && j < |walkers|
    modifies dev, readers, walkers
    modifies set k | 0 <= k < |readers| :: readers[k].buf, set k | 0 <= k < |walkers| :: walkers[k].block
    ensures KeepsLog(readers[i], old(readers[i].position), log, OpsFor(schedule, i))
    ensures OnItsWay(walkers[j], Nodes(old(walkers[j].Left())), nodes)
    ensures old(Suffices(dev, walkers, TurnsCost(dev, readers, walkers, schedule))) ==>
              && NothingFailed(log)
              && nodes == Nodes(old(walkers[j].Left()))[..Min(TurnsOf(schedule, j), |old(walkers[j].Left())|)]
  {
    hide AllKeepLogs, AllOnTheirWay, KeepsLog, OnItsWay, Trusty, Entries, Nodes, Listing, Agrees, Caches;
    hide AllAnswered, OpsFor, TurnsOf, Alone, TurnsCost;
    ghost var positions, alls := PositionsOf(readers), LeftOf(walkers);
    var logs, yielded := Interleave(dev, readers, walkers, schedule, positions, alls);
    OneOfMany(readers, positions, logs, schedule, i, walkers, alls, yielded, j);
    assert AllAnswered(logs) ==> NothingFailed(logs[i]) by {
      NoneFailed(logs, i);
    }
    return logs[i], yielded[j];
  }

  /**
   * The same clients side by side and alone: reader `i` and walk `j` share one device with all the
   * others, a second reader of the same file and a second walk over the same directory have a device
   * with the same image each to themselves. With any harmless faults on the three devices: where no
   * read of its own failed, each reader gets the same, and of the walks one has got as far as the
   * other or has the first of its entries. Where as many of the coming reads go well as they take, no
   * read fails, and the walks get the same.
   */
  method SharedAndAlone(dev: Device, readers: seq<FileReader>, walkers: seq<DirectoryIterator>, schedule: seq<Turn>,
                        i: nat, j: nat, script: seq<Outcome>, script': seq<Outcome>)
    returns (shared: seq<Event>, reader: FileReader, alone: seq<Event>,
             walked: seq<Node>, walker: DirectoryIterator, walkedAlone: seq<Node>)
    requires Clients(dev, readers, walkers) && Trusty(dev.script) && Trusty(script)
    requires forall k :: 0 <= k < |readers| ==> readers[k].Sound()
    requires forall k :: 0 <= k < |walkers| ==> walkers[k].Valid()
    requires HaveClients(readers, walkers, schedule) && i < |readers| && j < |walkers|
    modifies dev, readers, walkers
    modifies set k | 0 <= k < |readers| :: readers[k].buf, set k | 0 <= k < |walkers| :: walkers[k].block
    ensures reader.start == readers[i].start && reader.size == readers[i].size && reader.dev.image == dev.image
    ensures KeepsLog(readers[i], old(readers[i].position), shared, OpsFor(schedule, i))
    ensures KeepsLog(reader, old(readers[i].position), alone, OpsFor(schedule, i))
    ensures OnItsWay(walkers[j], Nodes(old(walkers[j].Left())), walked)
    ensures OnItsWay(walker, Nodes(old(walkers[j].Left())), walkedAlone)
    ensures reader.start * BLOCK + reader.size <= |dev.image| && NothingFailed(shared) && NothingFailed(alone) ==>
              shared == alone
    ensures walked <= walkedAlone || walkedAlone <= walked
    ensures AllFull(script, 0, OpsCost(reader.size, old(readers[i].position), OpsFor(schedule, i))) ==>
              NothingFailed(alone)
    ensures old(Suffices(dev, walkers, TurnsCost(dev, readers, walkers, schedule))) ==>
              && NothingFailed(shared)
              && var cost := CallsCost(dev.image, walkers[j].dir, Cursor(None, old(walkers[j].next)),
                                       TurnsOf(schedule, j));
                 cost.Finite? && AllFull(script', 0, cost.value) ==> walked == walkedAlone
  {
    hide KeepsLog, OnItsWay, Trusty, Entries, Nodes, Listing, Agrees, Caches, OpsFor, TurnsOf, Alone;
    hide TurnsCost, OpsCost, CallsCost;
    var position, next := readers[i].position, walkers[j].next;
    shared, walked := Share(dev, readers, walkers, schedule, i, j);
    reader := SoleReader(dev.image, script, readers[i].start, readers[i].size, position);
    alone := ServeAlone(reader, OpsFor(schedule, i));
    walker := SoleWalker(dev.image, script', walkers[j].dir, next);
    walkedAlone := WalkAlone(walker, TurnsOf(schedule, j));
    OneLogOnly(dev.image, readers[i], reader, position, shared, alone, OpsFor(schedule, i));
    FirstOfTheSame(walkers[j], walked, walker, walkedAlone, Nodes(old(walkers[j].Left())));
  }

  /** Two readers of one file that answered the same operations, without a failed read, gave the same answers. */
  lemma OneLogOnly(image: seq<byte>, a: FileReader, b: FileReader, position: nat, log: seq<Event>, log': seq<Event>,
                   ops: seq<Op>)
    requires a.dev.image == image == b.dev.image && a.start == b.start && a.size == b.size
    requires KeepsLog(a, position, log, ops) && KeepsLog(b, position, log', ops)
    ensures a.start * BLOCK + a.size <= |image| && NothingFailed(log) && NothingFailed(log') ==> log == log'
  {
    hide Faithful, NothingFailed, Agrees;
    if a.start * BLOCK + a.size <= |image| && NothingFailed(log) && NothingFailed(log') {
      AnswersAreDetermined(image, a.start, a.size, position, log, log');
    }
  }

  lemma FirstOfTheSame(a: DirectoryIterator, yielded: seq<Node>, b: DirectoryIterator, yielded': seq<Node>,
                       all: seq<Node>)
    requires OnItsWay(a, all, yielded) && OnItsWay(b, all, yielded')
    ensures yielded <= yielded' || yielded' <= yielded
  {
    hide Nodes, Entries, Listing, Caches;
    assert all[..|yielded|] == yielded && all[..|yielded'|] == yielded';
  }

  lemma OneOfMany(readers: seq<FileReader>, positions: seq<nat>, logs: seq<seq<Event>>, turns: seq<Turn>, i: nat,
                  walkers: seq<DirectoryIterator>, alls: seq<seq<Node>>, yielded: seq<seq<Node>>, j: nat)
    requires AllKeepLogs(readers, positions, logs, turns) && i < |readers|
    requires AllOnTheirWay(walkers, alls, yielded) && j < |walkers|
    ensures KeepsLog(readers[i], positions[i], logs[i], OpsFor(turns, i))
    ensures OnItsWay(walkers[j], alls[j], yielded[j])
  {
    hide KeepsLog, OnItsWay;
  }

  /** Where every reader stands */
  ghost function PositionsOf(readers: seq<FileReader>): (ps: seq<nat>)
    reads readers
    ensures |ps| == |readers| && forall i :: 0 <= i < |readers| ==> ps[i] == readers[i].position
  {
    if readers == [] then []
    else PositionsOf(Init(readers)) + [Last(readers).position]
  }

  /** What every walk has left */
  ghost function LeftOf(walkers: seq<DirectoryIterator>): (alls: seq<seq<Node>>)
    reads walkers
    ensures |alls| == |walkers| && forall i :: 0 <= i < |walkers| ==> alls[i] == Nodes(walkers[i].Left())
  {
    if walkers == [] then []
    else LeftOf(Init(walkers)) + [Nodes(Last(walkers).Left())]
  }

  lemma AllSetOut(walkers: seq<DirectoryIterator>, alls: seq<seq<Node>>, yielded: seq<seq<Node>>)
    requires |alls| == |yielded| == |walkers|
    requires forall i :: 0 <= i < |walkers| ==>
               walkers[i].Valid() && alls[i] == Nodes(walkers[i].Left()) && yielded[i] == []
    ensures AllOnTheirWay(walkers, alls, yielded) && AllMovedOn(alls, yielded, [])
  {
    hide Entries, Nodes, Listing;
  }
}
