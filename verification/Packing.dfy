/**
 Directories as section 6.8.1 of ECMA-119 lays them out, and what walking over them yields.
 */
module Packing {
  import opened Base
  import opened Strings
  import opened Susp
  import opened Record
  import opened DirectoryEntry
  import opened BlockDevice
  import opened Walk
  import opened Directory

  /** The records of a block, printed one after the other */
  function PrintRecords(rs: seq<Raw>): seq<byte>
    requires forall r :: r in rs ==> r.Valid()
  {
    if rs == [] then [] else PrintRecord(rs[0]) + PrintRecords(rs[1..])
  }

  /** A non-empty list of records that fits a block */
  ghost predicate FitsBlock(rs: seq<Raw>) {
    rs != [] && (forall r :: r in rs ==> r.Valid()) && |PrintRecords(rs)| <= BLOCK
  }

  function PrintBlock(rs: seq<Raw>): (s: seq<byte>)
    requires FitsBlock(rs)
    ensures |s| == BLOCK
  {
    PrintRecords(rs) + Zeros(BLOCK - |PrintRecords(rs)|)
  }

  /** The image holds the blocks as the extent of the directory. */
  ghost predicate Packed(image: seq<byte>, dir: Header, blocks: seq<seq<Raw>>) {
    && blocks != []
    && |blocks| * BLOCK <= 0xFFFF_F800
    && dir.size == |blocks| * BLOCK
    && forall b :: 0 <= b < |blocks| ==>
         FitsBlock(blocks[b]) && BlockAt(image, dir.location + b) == Some(PrintBlock(blocks[b]))
  }

  function PrintBlocks(blocks: seq<seq<Raw>>): (s: seq<byte>)
    requires forall b :: 0 <= b < |blocks| ==> FitsBlock(blocks[b])
    ensures |s| == |blocks| * BLOCK
  {
    if blocks == [] then [] else PrintBlock(blocks[0]) + PrintBlocks(blocks[1..])
  }

  lemma {:induction false} BlockOfPrinted(blocks: seq<seq<Raw>>, b: nat)
    requires (forall k :: 0 <= k < |blocks| ==> FitsBlock(blocks[k])) && b < |blocks|
    ensures PrintBlocks(blocks)[b * BLOCK..(b + 1) * BLOCK] == PrintBlock(blocks[b])
  {
    hide PrintBlock, FitsBlock;
    var s, rest := PrintBlocks(blocks), PrintBlocks(blocks[1..]);
    if b == 0 {
      assert s[0..BLOCK] == PrintBlock(blocks[0]);
    } else {
      BlockOfPrinted(blocks[1..], b - 1);
      var at := (b - 1) * BLOCK;
      assert at + BLOCK == b * BLOCK && at + 2 * BLOCK == (b + 1) * BLOCK;
      assert s[BLOCK + at..BLOCK + at + BLOCK] == rest[at..at + BLOCK];
    }
  }

  lemma BlockWithin(before: seq<byte>, printed: seq<byte>, after: seq<byte>, lba: nat, b: nat)
    requires |before| == lba * BLOCK && (b + 1) * BLOCK <= |printed|
    ensures BlockAt(before + printed + after, lba + b) == Some(printed[b * BLOCK..(b + 1) * BLOCK])
  {
    var image, at := before + printed + after, b * BLOCK;
    assert (lba + b) * BLOCK == |before| + at && (lba + b + 1) * BLOCK == |before| + at + BLOCK;
    assert image[|before| + at..|before| + at + BLOCK] == printed[at..at + BLOCK];
  }

  /** Every list of records that fit their blocks can be printed to an image that holds it as that directory. */
  lemma PrintedImageIsPacked(before: seq<byte>, dir: Header, blocks: seq<seq<Raw>>, after: seq<byte>)
    requires blocks != [] && |blocks| * BLOCK <= 0xFFFF_F800 && dir.size == |blocks| * BLOCK
    requires (forall b :: 0 <= b < |blocks| ==> FitsBlock(blocks[b])) && |before| == dir.location * BLOCK
    ensures Packed(before + PrintBlocks(blocks) + after, dir, blocks)
  {
    hide FitsBlock, PrintBlock, PrintBlocks, BlockAt;
    forall b | 0 <= b < |blocks|
      ensures BlockAt(before + PrintBlocks(blocks) + after, dir.location + b) == Some(PrintBlock(blocks[b]))
    {
      BlockOfPrinted(blocks, b);
      BlockWithin(before, PrintBlocks(blocks), after, dir.location, b);
    }
  }

  /** What a record of the image stands for, if it can be read */
  ghost function RawMeaning(image: seq<byte>, enc: Encoding, r: Raw): Option<Node>
    requires r.Valid()
  {
    match Assemble(r.HeaderIn(enc), r.id, r.use, [])
    case Done(p, _) => Meaning(image, p)
    case _ => None
  }

  /** Where the records from index `j` on start */
  function Start(rs: seq<Raw>, j: nat): nat
    requires j <= |rs| && forall r :: r in rs ==> r.Valid()
  {
    if j == 0 then 0 else Start(rs, j - 1) + rs[j - 1].Length()
  }

  lemma {:induction false} RecordsFrom(rs: seq<Raw>, j: nat)
    requires j <= |rs| && forall r :: r in rs ==> r.Valid()
    ensures Start(rs, j) <= |PrintRecords(rs)|
    ensures PrintRecords(rs)[Start(rs, j)..] == PrintRecords(rs[j..])
  {
    hide PrintRecord;
    if j == 0 {
      assert rs[0..] == rs;
    } else {
      RecordsFrom(rs, j - 1);
      var tail := rs[j - 1..];
      assert tail[0] == rs[j - 1] && tail[1..] == rs[j..];
      var at, n := Start(rs, j - 1), rs[j - 1].Length();
      assert PrintRecords(rs)[at..][n..] == PrintRecords(rs)[at + n..];
    }
  }

  /** At the start of a record there are the record and what follows it. */
  lemma BlockFrom(rs: seq<Raw>, j: nat)
    requires FitsBlock(rs) && j < |rs|
    ensures Start(rs, j) + rs[j].Length() == Start(rs, j + 1) <= |PrintRecords(rs)|
    ensures var at := Start(rs, j);
            PrintBlock(rs)[at..] == PrintRecord(rs[j]) + PrintBlock(rs)[at + rs[j].Length()..]
  {
    RecordsFrom(rs, j);
    RecordsFrom(rs, j + 1);
    var all, block, at := PrintRecords(rs), PrintBlock(rs), Start(rs, j);
    var next := Start(rs, j + 1);
    assert rs[j..][0] == rs[j] && rs[j..][1..] == rs[j + 1..];
    assert all[at..next] == PrintRecord(rs[j]) by {
      assert all[at..][..next - at] == all[at..next];
    }
    assert block[at..] == all[at..next] + block[next..];
  }

  /** A record is followed by the length of another that still fits, or by zeros to the end of the block. */
  lemma AfterRecord(rs: seq<Raw>, j: nat)
    requires FitsBlock(rs) && j < |rs|
    ensures Start(rs, j + 1) <= BLOCK
    ensures j + 1 < |rs| ==> Start(rs, j + 1) + 34 <= BLOCK && PrintBlock(rs)[Start(rs, j + 1)] != 0
    ensures j + 1 == |rs| ==> Start(rs, j + 1) == BLOCK || PrintBlock(rs)[Start(rs, j + 1)] == 0
  {
    RecordsFrom(rs, j + 1);
    var all, next := PrintRecords(rs), Start(rs, j + 1);
    if j + 1 < |rs| {
      var r := rs[j + 1];
      assert r in rs && rs[j + 1..][0] == r;
      RecordsFrom(rs, j + 2);
      assert all[next..][0] == PrintRecord(r)[0];
      assert PrintBlock(rs)[next] == all[next];
    } else {
      assert rs[j + 1..] == [];
    }
  }

  function Offset(blocks: seq<seq<Raw>>, b: nat, j: nat): nat
    requires b < |blocks| && j <= |blocks[b]| && forall r :: r in blocks[b] ==> r.Valid()
  {
    b * BLOCK + Start(blocks[b], j)
  }

  /** The offset of the record after record `j` of block `b` */
  function Following(blocks: seq<seq<Raw>>, b: nat, j: nat): Option<nat>
    requires b < |blocks| && j < |blocks[b]| && forall r :: r in blocks[b] ==> r.Valid()
  {
    if j + 1 < |blocks[b]| then Some(Offset(blocks, b, j + 1))
    else if b + 1 < |blocks| then Some((b + 1) * BLOCK)
    else None
  }

  lemma PackedBlock(image: seq<byte>, dir: Header, blocks: seq<seq<Raw>>, b: nat)
    requires Packed(image, dir, blocks) && b < |blocks|
    ensures FitsBlock(blocks[b]) && blocks[b] != [] && forall r :: r in blocks[b] ==> r.Valid()
    ensures BlockAt(image, dir.location + b) == Some(PrintBlock(blocks[b]))
    ensures BlockCount(dir.size) == |blocks|
  {
  }

  lemma NextOffsetAt(size: u32, block: seq<byte>, b: nat, at: nat, length: nat)
    requires |block| == BLOCK && b < BlockCount(size) && at < BLOCK && at + length <= BLOCK
    ensures (b * BLOCK + at) / BLOCK == b && (b * BLOCK + at) % BLOCK == at
    ensures var next := at + length;
            NextOffset(size, block, b * BLOCK + at, length) ==
              if next < 2048 - 33 && block[next] != 0 then Some(b * BLOCK + next)
              else if b + 1 < BlockCount(size) then Some((b + 1) * BLOCK)
              else None
  {
    hide BlockCount;
    assert (b * BLOCK + at) / BLOCK == b && (b * BLOCK + at) % BLOCK == at;
  }

  lemma NextIsFollowing(dir: Header, image: seq<byte>, blocks: seq<seq<Raw>>, b: nat, j: nat)
    requires Packed(image, dir, blocks) && b < |blocks| && j < |blocks[b]|
    ensures Start(blocks[b], j) + blocks[b][j].Length() <= BLOCK
    ensures var offset := Offset(blocks, b, j);
            && offset / BLOCK == b && offset % BLOCK == Start(blocks[b], j)
            && NextOffset(dir.size, PrintBlock(blocks[b]), offset, blocks[b][j].Length()) == Following(blocks, b, j)
  {
    hide NextOffset, PrintBlock, Packed, BlockCount, FitsBlock, PrintRecords, Start;
    PackedBlock(image, dir, blocks, b);
    var rs := blocks[b];
    BlockFrom(rs, j);
    AfterRecord(rs, j);
    var at, length := Start(rs, j), rs[j].Length();
    assert at + length == Start(rs, j + 1);
    NextOffsetAt(dir.size, PrintBlock(rs), b, at, length);
    assert Offset(blocks, b, j) == b * BLOCK + at;
    if j + 1 < |rs| {
      assert Following(blocks, b, j) == Some(b * BLOCK + (at + length));
    }
  }

  /** A record that is followed by something is the same record. */
  lemma AssembledAnyway(h: Header, id: seq<byte>, use: seq<byte>, rest: seq<byte>)
    ensures var a, b := Assemble(h, id, use, rest), Assemble(h, id, use, []);
            && (a.Done? <==> b.Done?) && (a.Panicked? <==> b.Panicked?)
            && (a.Done? ==> a.value == b.value && a.value.header == h)
  {
    hide DecodeIdentifier, ParseSystemUse;
  }

  /** What is parsed at the start of a packed record, and where the walk goes on */
  lemma ParsedAtRecord(image: seq<byte>, dir: Header, blocks: seq<seq<Raw>>, b: nat, j: nat)
    requires Packed(image, dir, blocks) && b < |blocks| && j < |blocks[b]|
    ensures FitsBlock(blocks[b]) && blocks[b][j].Valid() && forall r :: r in blocks[b] ==> r.Valid()
    ensures BlockAt(image, dir.location + b) == Some(PrintBlock(blocks[b]))
    ensures var r, offset, block := blocks[b][j], Offset(blocks, b, j), PrintBlock(blocks[b]);
            var parsed := ParseRecord(block[offset % BLOCK..], dir.encoding);
            var raw := Assemble(r.HeaderIn(dir.encoding), r.id, r.use, []);
            && offset / BLOCK == b && offset % BLOCK + r.Length() <= BLOCK
            && (parsed.Done? <==> raw.Done?) && (parsed.Panicked? <==> raw.Panicked?)
            && (parsed.Done? ==> parsed.value == raw.value && parsed.value.header.length as int == r.Length())
            && NextOffset(dir.size, block, offset, r.Length()) == Following(blocks, b, j)
  {
    hide ParseRecord, NextOffset, DecodeIdentifier, ParseSystemUse, Assemble, Offset, Following, Start;
    hide Packed, PrintBlock, FitsBlock, PrintRecords, PrintRecord, BlockCount, BlockAt;
    PackedBlock(image, dir, blocks, b);
    var rs := blocks[b];
    var r := rs[j];
    assert r in rs;
    NextIsFollowing(dir, image, blocks, b, j);
    BlockFrom(rs, j);
    var tail := PrintBlock(rs)[Start(rs, j) + r.Length()..];
    RecordRoundTrip(r, dir.encoding, tail);
    AssembledAnyway(r.HeaderIn(dir.encoding), r.id, r.use, tail);
  }

  /** Reading at the start of a packed record gives what that record stands for. */
  lemma StepAtRecord(image: seq<byte>, dir: Header, blocks: seq<seq<Raw>>, b: nat, j: nat)
    requires Packed(image, dir, blocks) && b < |blocks| && j < |blocks[b]|
    ensures blocks[b][j].Valid()
    ensures EntryAt(image, dir, Offset(blocks, b, j)) ==
              match RawMeaning(image, dir.encoding, blocks[b][j])
              case None => None
              case Some(n) => Some(Item(n, Following(blocks, b, j)))
  {
    hide Meaning, ParseRecord, NextOffset, Assemble, Offset, Following, Packed, PrintBlock, FitsBlock, BlockAt;
    ParsedAtRecord(image, dir, blocks, b, j);
  }

  /** Reading a record of the image ends in a panic when nothing goes wrong. */
  ghost predicate RawPanics(image: seq<byte>, enc: Encoding, r: Raw)
    requires r.Valid()
  {
    match Assemble(r.HeaderIn(enc), r.id, r.use, [])
    case Done(p, _) => MeaningPanics(image, p)
    case Panicked => true
    case Fail => false
  }

  /** Reading at the start of a packed record ends in a panic exactly if reading that record does. */
  lemma PanicAtRecord(image: seq<byte>, dir: Header, blocks: seq<seq<Raw>>, b: nat, j: nat)
    requires Packed(image, dir, blocks) && b < |blocks| && j < |blocks[b]|
    ensures blocks[b][j].Valid()
    ensures EntryPanics(image, dir, Offset(blocks, b, j)) <==> RawPanics(image, dir.encoding, blocks[b][j])
  {
    hide MeaningPanics, ParseRecord, NextOffset, Assemble, Offset, Following, Packed, PrintBlock, FitsBlock, BlockAt;
    ParsedAtRecord(image, dir, blocks, b, j);
  }

  /** The records from record `j` of block `b` on, through all later blocks */
  function From(blocks: seq<seq<Raw>>, b: nat, j: nat): seq<Raw>
    requires b < |blocks| && j <= |blocks[b]|
    decreases |blocks| - b, |blocks[b]| - j
  {
    if j < |blocks[b]| then [blocks[b][j]] + From(blocks, b, j + 1)
    else if b + 1 < |blocks| then From(blocks, b + 1, 0)
    else []
  }

  /** The entries for the records up to the first that cannot be read */
  ghost function Readable(image: seq<byte>, enc: Encoding, rs: seq<Raw>): seq<Node>
    requires forall r :: r in rs ==> r.Valid()
  {
    if rs == [] || RawMeaning(image, enc, rs[0]).None? then []
    else [RawMeaning(image, enc, rs[0]).value] + Readable(image, enc, rs[1..])
  }

  lemma {:induction false} FromIsValid(image: seq<byte>, dir: Header, blocks: seq<seq<Raw>>, b: nat, j: nat)
    requires Packed(image, dir, blocks) && b < |blocks| && j <= |blocks[b]|
    ensures forall r :: r in From(blocks, b, j) ==> r.Valid()
    decreases |blocks| - b, |blocks[b]| - j
  {
    hide Packed;
    PackedBlock(image, dir, blocks, b);
    if j < |blocks[b]| {
      assert blocks[b][j] in blocks[b];
      FromIsValid(image, dir, blocks, b, j + 1);
    } else if b + 1 < |blocks| {
      FromIsValid(image, dir, blocks, b + 1, 0);
    }
  }

  /** One more record in front of a walk */
  lemma WalkOneMore(step: Stepper, limit: nat, offset: nat)
    requires Advances(step, limit) && step(offset).Some?
    ensures var item := step(offset).value;
            && Nodes(Listing(step, limit, offset)) == [item.node] + Nodes(Remaining(step, limit, item.next))
            && (Complete(step, limit, offset) <==> CompleteFrom(step, limit, item.next))
  {
    assert AdvancesAt(step, limit, offset);
    var item := step(offset).value;
    NodesOneMore(item, Remaining(step, limit, item.next));
  }

  /** The walk from a packed record on yields the records from there on, as far as they can be read. */
  lemma {:induction false} WalkFrom(image: seq<byte>, dir: Header, blocks: seq<seq<Raw>>, b: nat, j: nat)
    requires Packed(image, dir, blocks) && b < |blocks| && j < |blocks[b]|
    requires Advances(Entries(image, dir), Limit(dir))
    ensures forall r :: r in From(blocks, b, j) ==> r.Valid()
    ensures var rs, nodes := From(blocks, b, j), Nodes(Listing(Entries(image, dir), Limit(dir), Offset(blocks, b, j)));
            && nodes == Readable(image, dir.encoding, rs)
            && (Complete(Entries(image, dir), Limit(dir), Offset(blocks, b, j)) <==> |nodes| == |rs|)
    decreases |blocks| - b, |blocks[b]| - j
  {
    hide EntryAt, RawMeaning, BlockCount, Packed;
    PackedBlock(image, dir, blocks, b);
    FromIsValid(image, dir, blocks, b, j);
    StepAtRecord(image, dir, blocks, b, j);
    var step, limit, offset := Entries(image, dir), Limit(dir), Offset(blocks, b, j);
    var rs, r := From(blocks, b, j), blocks[b][j];
    assert rs[0] == r && rs[1..] == From(blocks, b, j + 1);
    if step(offset).Some? {
      WalkOneMore(step, limit, offset);
      if j + 1 < |blocks[b]| {
        WalkFrom(image, dir, blocks, b, j + 1);
      } else if b + 1 < |blocks| {
        PackedBlock(image, dir, blocks, b + 1);
        assert Offset(blocks, b + 1, 0) == (b + 1) * BLOCK;
        WalkFrom(image, dir, blocks, b + 1, 0);
      }
    }
  }

  lemma {:induction false} FromIsFlat(blocks: seq<seq<Raw>>, b: nat, j: nat)
    requires b < |blocks| && j <= |blocks[b]|
    ensures From(blocks, b, j) == blocks[b][j..] + Flatten(blocks[b + 1..])
    decreases |blocks| - b, |blocks[b]| - j
  {
    var rs, later := blocks[b], blocks[b + 1..];
    if j < |rs| {
      FromIsFlat(blocks, b, j + 1);
      assert rs[j..] == [rs[j]] + rs[j + 1..];
      assert [rs[j]] + (rs[j + 1..] + Flatten(later)) == rs[j..] + Flatten(later);
    } else {
      assert rs[j..] == [];
      if b + 1 < |blocks| {
        FromIsFlat(blocks, b + 1, 0);
        assert later[0] == blocks[b + 1] && later[1..] == blocks[b + 2..] && blocks[b + 1][0..] == blocks[b + 1];
      }
    }
  }

  /**
   * For every list of records packed into blocks: walking the directory from the start yields the
   * entries of the records in order up to the first record that cannot be read, and the walk is
   * complete exactly when all records can be read.
   */
  lemma DirectoryRoundTrip(image: seq<byte>, dir: Header, blocks: seq<seq<Raw>>)
    requires Packed(image, dir, blocks)
    ensures Advances(Entries(image, dir), Limit(dir))
    ensures forall r :: r in Flatten(blocks) ==> r.Valid()
    ensures Nodes(Listing(Entries(image, dir), Limit(dir), 0)) == Readable(image, dir.encoding, Flatten(blocks))
    ensures Complete(Entries(image, dir), Limit(dir), 0)
        <==> forall r :: r in Flatten(blocks) ==> RawMeaning(image, dir.encoding, r).Some?
  {
    assert blocks != [];
    hide EntryAt, RawMeaning, Listing, Complete, Nodes, Packed;
    PackedBlock(image, dir, blocks, 0);
    EntriesAdvance(image, dir);
    WalkFrom(image, dir, blocks, 0, 0);
    FromIsFlat(blocks, 0, 0);
    assert blocks[0][0..] == blocks[0] && From(blocks, 0, 0) == Flatten(blocks);
    ReadableAll(image, dir.encoding, Flatten(blocks));
  }

  lemma {:induction false} ReadableAll(image: seq<byte>, enc: Encoding, rs: seq<Raw>)
    requires forall r :: r in rs ==> r.Valid()
    ensures |Readable(image, enc, rs)| <= |rs|
    ensures |Readable(image, enc, rs)| == |rs| <==> forall r :: r in rs ==> RawMeaning(image, enc, r).Some?
  {
    hide RawMeaning;
    if rs != [] {
      assert rs == [rs[0]] + rs[1..];
      ReadableAll(image, enc, rs[1..]);
    }
  }

  // ---- how many reads a packed directory takes ----

  /** The reads for the continuation areas of a record */
  ghost function RecordCost(image: seq<byte>, enc: Encoding, r: Raw): Cost
    requires r.Valid()
  {
    match Assemble(r.HeaderIn(enc), r.id, r.use, [])
    case Done(p, _) => AreasCost(image, p)
    case _ => Finite(0)
  }

  ghost function RecordsCost(image: seq<byte>, enc: Encoding, rs: seq<Raw>): Cost
    requires forall r :: r in rs ==> r.Valid()
  {
    if rs == [] then Finite(0) else Plus(RecordCost(image, enc, rs[0]), RecordsCost(image, enc, rs[1..]))
  }

  lemma CostAtRecord(image: seq<byte>, dir: Header, blocks: seq<seq<Raw>>, b: nat, j: nat, cached: Option<nat>)
    requires Packed(image, dir, blocks) && b < |blocks| && j < |blocks[b]|
    ensures blocks[b][j].Valid()
    ensures EntryCost(image, dir, cached, Offset(blocks, b, j))
         == Plus(Finite(if cached == Some(b) then 0 else 1), RecordCost(image, dir.encoding, blocks[b][j]))
  {
    hide AreasCost, EntryCost, EntryAt, EntryPanics, AreasDue, Meaning, MeaningPanics, ParseRecord, NextOffset;
    hide Assemble, Offset, Following, Packed, PrintBlock, FitsBlock, BlockAt, CachedAfter;
    ParsedAtRecord(image, dir, blocks, b, j);
    BlockParsed(image, dir, cached, Offset(blocks, b, j), PrintBlock(blocks[b]));
  }

  /** The next call at a record that can be read */
  lemma CallAtRecord(image: seq<byte>, dir: Header, blocks: seq<seq<Raw>>, b: nat, j: nat, cached: Option<nat>)
    requires Packed(image, dir, blocks) && b < |blocks| && j < |blocks[b]|
    requires blocks[b][j].Valid() && RawMeaning(image, dir.encoding, blocks[b][j]).Some?
    requires forall r :: r in blocks[b] ==> r.Valid()
    ensures var c := Cursor(cached, Some(Offset(blocks, b, j)));
            && NextCost(image, dir, c)
               == Plus(Finite(if cached == Some(b) then 0 else 1), RecordCost(image, dir.encoding, blocks[b][j]))
            && NextCursor(image, dir, c) == Cursor(Some(b), Following(blocks, b, j))
  {
    hide EntryCost, EntryAt, RawMeaning, RecordCost, Packed, BlockAt, NextOffset, PrintBlock;
    CostAtRecord(image, dir, blocks, b, j, cached);
    StepAtRecord(image, dir, blocks, b, j);
    NextIsFollowing(dir, image, blocks, b, j);
    PackedBlock(image, dir, blocks, b);
  }

  /** In a directory of one block, at the start of a record that takes no reads of its own */
  lemma InOneBlock(image: seq<byte>, dir: Header, rs: seq<Raw>, j: nat, node: Node, cached: Option<nat>)
    requires Packed(image, dir, [rs]) && j < |rs| && forall r :: r in rs ==> r.Valid()
    requires RawMeaning(image, dir.encoding, rs[j]) == Some(node)
    requires RecordCost(image, dir.encoding, rs[j]) == Finite(0)
    ensures var at := Start(rs, j);
            var next := if j + 1 < |rs| then Some(Start(rs, j + 1)) else None;
            && EntryAt(image, dir, at) == Some(Item(node, next))
            && NextCost(image, dir, Cursor(cached, Some(at))) == Finite(if cached == Some(0) then 0 else 1)
            && NextCursor(image, dir, Cursor(cached, Some(at))) == Cursor(Some(0), next)
  {
    hide RawMeaning, RecordCost, EntryAt, NextCost, NextCursor, Packed, Start, FitsBlock;
    var blocks := [rs];
    StepAtRecord(image, dir, blocks, 0, j);
    CallAtRecord(image, dir, blocks, 0, j, cached);
    assert Offset(blocks, 0, j) == Start(rs, j);
  }

  ghost predicate AllReadable(image: seq<byte>, enc: Encoding, rs: seq<Raw>) {
    forall r :: r in rs ==> r.Valid() && RawMeaning(image, enc, r).Some?
  }

  lemma FirstReadable(image: seq<byte>, enc: Encoding, rs: seq<Raw>)
    requires AllReadable(image, enc, rs) && rs != []
    ensures rs[0].Valid() && RawMeaning(image, enc, rs[0]).Some? && AllReadable(image, enc, rs[1..])
    ensures forall r :: r in rs ==> r.Valid()
    ensures RecordsCost(image, enc, rs) == Plus(RecordCost(image, enc, rs[0]), RecordsCost(image, enc, rs[1..]))
  {
    hide RawMeaning, RecordCost;
  }

  /** The first call of a walk from a packed record on */
  lemma CostOfFirst(image: seq<byte>, dir: Header, blocks: seq<seq<Raw>>, b: nat, j: nat, cached: Option<nat>)
    requires Packed(image, dir, blocks) && b < |blocks| && j < |blocks[b]|
    requires AllReadable(image, dir.encoding, From(blocks, b, j))
    requires forall r :: r in blocks[b] ==> r.Valid()
    ensures var c, rs := Cursor(cached, Some(Offset(blocks, b, j))), From(blocks, b, j);
            var next := Cursor(Some(b), Following(blocks, b, j));
            && rs != [] && rs[1..] == From(blocks, b, j + 1) && AllReadable(image, dir.encoding, rs[1..])
            && rs[0].Valid() && (forall r :: r in rs ==> r.Valid())
            && CallsCost(image, dir, c, |rs|)
               == Plus(Plus(Finite(if cached == Some(b) then 0 else 1), RecordCost(image, dir.encoding, rs[0])),
                       CallsCost(image, dir, next, |rs| - 1))
            && CursorAfter(image, dir, c, |rs|) == CursorAfter(image, dir, next, |rs| - 1)
            && RecordsCost(image, dir.encoding, rs)
               == Plus(RecordCost(image, dir.encoding, rs[0]), RecordsCost(image, dir.encoding, rs[1..]))
  {
    hide NextCost, NextCursor, RecordCost, RecordsCost, RawMeaning, Packed, CallsCost, CursorAfter, Start, AllReadable;
    hide Following;
    var c, rs := Cursor(cached, Some(Offset(blocks, b, j))), From(blocks, b, j);
    assert rs[0] == blocks[b][j] && rs[1..] == From(blocks, b, j + 1);
    FirstReadable(image, dir.encoding, rs);
    CallAtRecord(image, dir, blocks, b, j, cached);
    CallsCostFirst(image, dir, c, |rs| - 1);
  }

  /** Walking from a packed record on takes one read for each new block, and those for the areas. */
  lemma {:induction false} CostFrom(
      image: seq<byte>, dir: Header, blocks: seq<seq<Raw>>, b: nat, j: nat, cached: Option<nat>)
    requires Packed(image, dir, blocks) && b < |blocks| && j < |blocks[b]| && (cached == Some(b) <==> j > 0)
    requires AllReadable(image, dir.encoding, From(blocks, b, j))
    requires forall r :: r in blocks[b] ==> r.Valid()
    ensures var c, rs := Cursor(cached, Some(Offset(blocks, b, j))), From(blocks, b, j);
            && CallsCost(image, dir, c, |rs|)
               == Plus(Finite(|blocks| - b - if j == 0 then 0 else 1), RecordsCost(image, dir.encoding, rs))
            && CursorAfter(image, dir, c, |rs|).next.None?
    decreases |blocks| - b, |blocks[b]| - j
  {
    hide NextCost, NextCursor, RecordCost, RecordsCost, RawMeaning, Packed, CallsCost, CursorAfter, Start, AllReadable;
    var rs := From(blocks, b, j);
    CostOfFirst(image, dir, blocks, b, j, cached);
    if j + 1 < |blocks[b]| {
      CostFrom(image, dir, blocks, b, j + 1, Some(b));
    } else if b + 1 < |blocks| {
      PackedBlock(image, dir, blocks, b + 1);
      StartsBlock(blocks, b + 1);
      CostFrom(image, dir, blocks, b + 1, 0, Some(b));
    } else {
      NoCalls(image, dir, Cursor(Some(b), None));
      assert rs[1..] == [];
      NoRecords(image, dir.encoding);
    }
  }

  lemma NoRecords(image: seq<byte>, enc: Encoding)
    ensures RecordsCost(image, enc, []) == Finite(0)
  {
  }

  lemma StartsBlock(blocks: seq<seq<Raw>>, b: nat)
    requires b < |blocks| && forall r :: r in blocks[b] ==> r.Valid()
    ensures Offset(blocks, b, 0) == b * BLOCK
  {
  }

  lemma NoCalls(image: seq<byte>, dir: Header, c: Cursor)
    ensures CallsCost(image, dir, c, 0) == Finite(0) && CursorAfter(image, dir, c, 0) == c
  {
  }

  /**
   * Walking over a packed directory whose records can all be read takes one read for each block and
   * those for the continuation areas, however many records there are.
   */
  lemma DirectoryCost(image: seq<byte>, dir: Header, blocks: seq<seq<Raw>>, calls: nat)
    requires Packed(image, dir, blocks) && calls >= |Flatten(blocks)|
    requires AllReadable(image, dir.encoding, Flatten(blocks))
    ensures CallsCost(image, dir, START, calls)
         == Plus(Finite(|blocks|), RecordsCost(image, dir.encoding, Flatten(blocks)))
  {
    assert blocks != [];
    hide NextCost, NextCursor, RawMeaning, Packed, RecordCost, CallsCost, CursorAfter;
    PackedBlock(image, dir, blocks, 0);
    FromIsFlat(blocks, 0, 0);
    assert blocks[0][0..] == blocks[0] && From(blocks, 0, 0) == Flatten(blocks);
    CostFrom(image, dir, blocks, 0, 0, None);
    NothingAfterTheEnd(image, dir, START, |Flatten(blocks)|, calls);
  }

  // ---- how long a walk can be ----

  /** How many records of 34 bytes fit from an offset to the end of the last block */
  function Room(dir: Header, offset: nat): nat {
    (BLOCK - offset % BLOCK) / 34 + 60 * Max(0, BlockCount(dir.size) - 1 - offset / BLOCK)
  }

  lemma RoomShrinks(dir: Header, offset: nat, next: nat)
    requires StepsBy34(dir, offset, Some(next))
    ensures Room(dir, next) < Room(dir, offset)
  {
    hide BlockCount;
    var b, n := offset / BLOCK, BlockCount(dir.size);
    if next == (b + 1) * BLOCK {
      assert next / BLOCK == b + 1 && next % BLOCK == 0 && b + 1 < n;
      assert (BLOCK - offset % BLOCK) / 34 >= 1;
    } else {
      assert next % BLOCK >= offset % BLOCK + 34;
      assert (BLOCK - next % BLOCK) / 34 + 1 <= (BLOCK - offset % BLOCK) / 34;
    }
  }

  lemma {:induction false} ListingFitsRoom(image: seq<byte>, dir: Header, offset: nat)
    requires Advances(Entries(image, dir), Limit(dir))
    ensures |Listing(Entries(image, dir), Limit(dir), offset)| <= Room(dir, offset)
    decreases Distance(offset, Limit(dir))
  {
    hide EntryAt, Room, BlockCount;
    var step := Entries(image, dir);
    assert AdvancesAt(step, Limit(dir), offset);
    if step(offset).Some? {
      EntryStep(image, dir, offset);
      var next := step(offset).value.next;
      if next.Some? {
        ListingFitsRoom(image, dir, next.value);
        RoomShrinks(dir, offset, next.value);
      } else {
        RoomForOne(dir, offset);
      }
    }
  }

  lemma RoomForOne(dir: Header, offset: nat)
    requires offset % BLOCK + 34 <= BLOCK
    ensures Room(dir, offset) >= 1
  {
  }

  /** On any image, a walk from the start yields at most 60 entries per block of the directory. */
  lemma SixtyPerBlock(image: seq<byte>, dir: Header)
    ensures Advances(Entries(image, dir), Limit(dir))
    ensures |Listing(Entries(image, dir), Limit(dir), 0)| <= 60 * Max(1, BlockCount(dir.size))
  {
    hide EntryAt, BlockCount;
    EntriesAdvance(image, dir);
    ListingFitsRoom(image, dir, 0);
  }

  /** The smallest record: a one-byte identifier and no system use area */
  const SMALLEST := Raw(0, 0, 0, [0, 0, 0, 0, 0, 0, 0], 0, 0, [0], [])

  /** The `2048 - 33` cut-off passes over exactly the positions of a block where no record can be. */
  lemma CutOffIsExact(pos: nat, enc: Encoding)
    requires pos <= BLOCK
    ensures (exists block: seq<byte> :: |block| == BLOCK && ParseRecord(block[pos..], enc).Done?) <==> pos < 2048 - 33
  {
    hide ParseRecord, ParseSystemUse;
    if block: seq<byte> :| |block| == BLOCK && ParseRecord(block[pos..], enc).Done? {
      ParsedLength(block[pos..], enc);
    }
    if pos < 2048 - 33 {
      var record := PrintRecord(SMALLEST);
      var block := Zeros(pos) + record + Zeros(BLOCK - pos - |record|);
      assert block[pos..] == record + Zeros(BLOCK - pos - |record|);
      RecordRoundTrip(SMALLEST, enc, Zeros(BLOCK - pos - |record|));
      SystemUseTiles([]);
      assert ParseRecord(block[pos..], enc).Done?;
    }
  }

  /** What there is to get from a packed directory, and how many reads that takes */
  lemma ContentsOf(image: seq<byte>, dir: Header, blocks: seq<seq<Raw>>, calls: nat)
    requires Packed(image, dir, blocks)
    ensures Advances(Entries(image, dir), Limit(dir)) && forall r :: r in Flatten(blocks) ==> r.Valid()
    ensures var listing, all := Listing(Entries(image, dir), Limit(dir), 0), Flatten(blocks);
            && Nodes(listing) == Readable(image, dir.encoding, all) && |listing| <= |all|
            && (AllReadable(image, dir.encoding, all) <==> Complete(Entries(image, dir), Limit(dir), 0))
            && (AllReadable(image, dir.encoding, all) ==> |listing| == |all|)
            && (AllReadable(image, dir.encoding, all) && calls >= |all| ==>
                  CallsCost(image, dir, START, calls)
                  == Plus(Finite(|blocks|), RecordsCost(image, dir.encoding, all)))
  {
    hide Entries, Listing, Complete, Nodes, Packed, RawMeaning, RecordsCost, CallsCost, Readable, Flatten, Limit;
    DirectoryRoundTrip(image, dir, blocks);
    ReadableAll(image, dir.encoding, Flatten(blocks));
    if AllReadable(image, dir.encoding, Flatten(blocks)) && calls >= |Flatten(blocks)| {
      DirectoryCost(image, dir, blocks, calls);
    }
  }

  /** What an iterator has left at first */
  lemma LeftAtFirst(it: DirectoryIterator)
    requires it.cached.None? && it.next == Some(0)
    ensures Advances(Entries(it.dev.image, it.dir), Limit(it.dir)) && it.Here() == START
    ensures it.Left() == Listing(Entries(it.dev.image, it.dir), Limit(it.dir), 0)
    ensures it.LeftComplete() == Complete(Entries(it.dev.image, it.dir), Limit(it.dir), 0)
  {
    hide Entries, Listing, Complete;
    EntriesAdvance(it.dev.image, it.dir);
  }

  /**
   * `contents()` of a packed directory, with any pattern of faults: what comes out in order is what
   * the records stand for, up to the first that cannot be read. Every read that goes wrong costs at
   * most one call, so that enough calls give all of it, and then the end, whenever the faults come. If
   * nothing goes wrong, that takes one read for each block and those for the continuation areas.
   */
  method ReadContents(dev: Device, dir: Header, ghost blocks: seq<seq<Raw>>, calls: nat)
    returns (nodes: seq<Node>, errors: seq<Failure>, ended: bool)
    requires Packed(dev.image, dir, blocks)
    modifies dev
    ensures dev.served >= old(dev.served)
    ensures forall r :: r in Flatten(blocks) ==> r.Valid()
    ensures nodes <= Readable(dev.image, dir.encoding, Flatten(blocks))
    ensures ended ==> |nodes| == |Flatten(blocks)| && nodes == Readable(dev.image, dir.encoding, Flatten(blocks))
    ensures dev.WholeBlocks() ==>
              var faults := Faults(dev.script, old(dev.served), dev.served);
              && |nodes| + faults >= Min(calls, |Readable(dev.image, dir.encoding, Flatten(blocks))|)
              && (AllReadable(dev.image, dir.encoding, Flatten(blocks)) ==>
                    |errors| <= faults && (calls >= |Flatten(blocks)| + faults ==> ended))
    ensures var cost := Plus(Finite(|blocks|), RecordsCost(dev.image, dir.encoding, Flatten(blocks)));
            calls >= |Flatten(blocks)| && AllReadable(dev.image, dir.encoding, Flatten(blocks)) ==>
              && (old(dev.Quiet(cost)) ==> ended && errors == [] && dev.FaultFreeSince(old(dev.served)))
              && (dev.CalmSince(old(dev.served)) ==> cost == Finite(dev.served - old(dev.served)))
  {
    hide Entries, Listing, Complete, Nodes, Packed, AllReadable, RecordsCost, CallsCost, Faults, AllFull, Readable;
    hide Flatten, Limit, Advances, Raw.Valid, Device.WholeBlocks, Plus, Caches;
    hide DirectoryIterator.Left, DirectoryIterator.LeftComplete;
    ContentsOf(dev.image, dir, blocks, calls);
    var it := new DirectoryIterator(dev, dir);
    LeftAtFirst(it);
    nodes, errors := Run(it, calls);
    ended := it.next.None?;
  }
}
