/**
 Reading directories: one entry at an offset through a block cache, and the iterator over it.
 */
module Directory {
  import opened Base
  import opened Susp
  import opened Record
  import opened DirectoryEntry
  import opened BlockDevice
  import opened Continuation
  import opened Walk

  /** `block_count`: the sum is a 32-bit one. */
  function BlockCount(size: u32): nat {
    (size + 2047) % 0x1_0000_0000 / 2048
  }

  /** `block_count` rounds up, except for the sizes whose sum wraps. */
  lemma BlockCountRoundsUp(size: u32)
    ensures (BlockCount(size) * 2048 >= size && BlockCount(size) * 2048 < size + 2048)
        <==> size <= 0xFFFF_F800
  {
  }

  function Limit(dir: Header): nat {
    BlockCount(dir.size) * BLOCK
  }

  /**
   * The offset after a record of `length` bytes: still in this block unless a zero byte or the
   * last 33 bytes follow, and nothing past the last block.
   */
  function NextOffset(size: u32, block: seq<byte>, offset: nat, length: nat): Option<nat>
    requires |block| == BLOCK && offset % BLOCK + length <= BLOCK
  {
    var pos := offset % BLOCK + length;
    var skip := pos >= 2048 - 33 || block[pos] == 0;
    var num := if skip then offset / BLOCK + 1 else offset / BLOCK;
    if num < BlockCount(size) then Some(2048 * num + if skip then 0 else pos) else None
  }

  function InlineEntries(p: Parsed): seq<Entry> {
    if p.systemUse.Some? then p.systemUse.value else []
  }

  /** What a parsed record stands for: the entry built from its own and its continued system use. */
  ghost function Meaning(image: seq<byte>, p: Parsed): Option<Node> {
    match After(Others(InlineEntries(p)), Collected(Reading(image), Inline(InlineEntries(p))))
    case None => None
    case Some(es) =>
      match BuildNode(p.header, p.identifier, es)
      case Err(_) => None
      case Ok(n) => Some(n)
  }

  /** The entry at an offset of a block that has been read */
  ghost function EntryIn(image: seq<byte>, dir: Header, block: seq<byte>, offset: nat): Option<Item>
    requires |block| == BLOCK
  {
    match ParseRecord(block[offset % BLOCK..], dir.encoding)
    case Done(p, _) =>
      ParsedLength(block[offset % BLOCK..], dir.encoding);
      (match Meaning(image, p)
       case None => None
       case Some(n) => Some(Item(n, NextOffset(dir.size, block, offset, p.header.length as int))))
    case _ => None
  }

  /** The entry that the image holds at an offset of a directory, and the offset after it */
  ghost function EntryAt(image: seq<byte>, dir: Header, offset: nat): Option<Item> {
    match BlockAt(image, dir.location + offset / BLOCK)
    case None => None
    case Some(block) => EntryIn(image, dir, block, offset)
  }

  /** Building the entry of a parsed record ends in a panic when nothing goes wrong. */
  ghost predicate MeaningPanics(image: seq<byte>, p: Parsed) {
    || ChasePanics(image, Inline(InlineEntries(p)))
    || match After(Others(InlineEntries(p)), Collected(Reading(image), Inline(InlineEntries(p))))
       case None => false
       case Some(es) => BuildNode(p.header, p.identifier, es) == Err(Panic)
  }

  /** Reading the entry at an offset ends in a panic when nothing goes wrong. */
  ghost predicate EntryPanics(image: seq<byte>, dir: Header, offset: nat) {
    match BlockAt(image, dir.location + offset / BLOCK)
    case None => false
    case Some(block) =>
      match ParseRecord(block[offset % BLOCK..], dir.encoding)
      case Done(p, _) => MeaningPanics(image, p)
      case Panicked => true
      case Fail => false
  }

  /** The record at an offset goes on in continuation areas. */
  predicate AreasDue(image: seq<byte>, dir: Header, offset: nat) {
    match BlockAt(image, dir.location + offset / BLOCK)
    case None => false
    case Some(block) =>
      match ParseRecord(block[offset % BLOCK..], dir.encoding)
      case Done(p, _) => Inline(InlineEntries(p)) != []
      case _ => false
  }

  ghost function Entries(image: seq<byte>, dir: Header): Stepper {
    (offset: nat) => EntryAt(image, dir, offset)
  }

  /** The record at `offset` fits its block, and the walk goes on at least 34 bytes later or in the next block. */
  ghost predicate StepsBy34(dir: Header, offset: nat, next: Option<nat>) {
    && offset % BLOCK + 34 <= BLOCK
    && (next.Some? ==>
          && next.value < Limit(dir)
          && (next.value == (offset / BLOCK + 1) * BLOCK
              || (next.value / BLOCK == offset / BLOCK && next.value >= offset + 34)))
  }

  lemma EntryStep(image: seq<byte>, dir: Header, offset: nat)
    ensures EntryAt(image, dir, offset).Some? ==> StepsBy34(dir, offset, EntryAt(image, dir, offset).value.next)
  {
    hide Meaning, ParseRecord;
    var block := BlockAt(image, dir.location + offset / BLOCK);
    if block.Some? {
      ParsedLength(block.value[offset % BLOCK..], dir.encoding);
    }
  }

  lemma EntriesAdvance(image: seq<byte>, dir: Header)
    ensures Advances(Entries(image, dir), Limit(dir))
  {
    hide EntryAt;
    forall offset: nat
      ensures AdvancesAt(Entries(image, dir), Limit(dir), offset)
    {
      EntryStep(image, dir, offset);
    }
  }

  // ---- how many reads it takes ----

  /** The reads for the continuation areas of an entry */
  ghost function AreasCost(image: seq<byte>, p: Parsed): Cost {
    Steps(Reading(image), Inline(InlineEntries(p)))
  }

  /** The reads for the entry at an offset of a block that has been read */
  ghost function CostIn(image: seq<byte>, dir: Header, block: seq<byte>, offset: nat): Cost
    requires |block| == BLOCK
  {
    match ParseRecord(block[offset % BLOCK..], dir.encoding)
    case Done(p, _) => AreasCost(image, p)
    case _ => Finite(0)
  }

  /** The reads for the entry at an offset, once its block is read */
  ghost function CostAt(image: seq<byte>, dir: Header, offset: nat): Cost {
    match BlockAt(image, dir.location + offset / BLOCK)
    case None => Finite(0)
    case Some(block) => CostIn(image, dir, block, offset)
  }

  /** The reads for the entry at an offset: one for its block unless that is cached, and those for its areas */
  ghost function EntryCost(image: seq<byte>, dir: Header, cached: Option<nat>, offset: nat): Cost {
    Plus(LoadCost(cached, offset), CostAt(image, dir, offset))
  }

  /** Whether the block is in the cache decides over one read. */
  function LoadCost(cached: Option<nat>, offset: nat): Cost {
    Finite(if cached == Some(offset / BLOCK) then 0 else 1)
  }

  /** Reading the entry at an offset ends with an error, and not in a panic, when nothing goes wrong. */
  ghost predicate EntryFails(image: seq<byte>, dir: Header, offset: nat) {
    && EntryAt(image, dir, offset).None? && !EntryPanics(image, dir, offset)
    && EntryCost(image, dir, None, offset).Finite?
  }

  /** What is known of an entry whose block the image does not have */
  lemma NoBlock(image: seq<byte>, dir: Header, cached: Option<nat>, offset: nat)
    requires BlockAt(image, dir.location + offset / BLOCK).None?
    ensures EntryAt(image, dir, offset).None? && EntryCost(image, dir, cached, offset) == LoadCost(cached, offset)
    ensures CachedAfter(image, dir, offset / BLOCK) == None && !EntryPanics(image, dir, offset)
  {
    hide BlockAt, EntryIn, CostIn;
  }

  /** What is known of an entry once its block is read */
  lemma BlockParsed(image: seq<byte>, dir: Header, cached: Option<nat>, offset: nat, block: seq<byte>)
    requires |block| == BLOCK && BlockAt(image, dir.location + offset / BLOCK) == Some(block)
    ensures CachedAfter(image, dir, offset / BLOCK) == Some(offset / BLOCK)
    ensures var parsed := ParseRecord(block[offset % BLOCK..], dir.encoding);
            if parsed.Done? then
              var p := parsed.value;
              && offset % BLOCK + p.header.length as int <= BLOCK
              && EntryCost(image, dir, cached, offset) == Plus(LoadCost(cached, offset), AreasCost(image, p))
              && EntryAt(image, dir, offset)
                 == (match Meaning(image, p)
                     case None => None
                     case Some(n) => Some(Item(n, NextOffset(dir.size, block, offset, p.header.length as int))))
              && EntryPanics(image, dir, offset) == MeaningPanics(image, p)
              && AreasDue(image, dir, offset) == (Inline(InlineEntries(p)) != [])
            else
              && EntryAt(image, dir, offset).None?
              && EntryCost(image, dir, cached, offset) == LoadCost(cached, offset)
              && EntryPanics(image, dir, offset) == parsed.Panicked?
  {
    hide BlockAt, ParseRecord, Meaning, MeaningPanics, AreasCost, NextOffset, Inline;
    ParsedLength(block[offset % BLOCK..], dir.encoding);
  }

  /** Whether the block is cached decides over one read, and nothing else. */
  lemma CachedOrNot(image: seq<byte>, dir: Header, cached: Option<nat>, offset: nat)
    ensures EntryCost(image, dir, cached, offset).Finite? <==> EntryCost(image, dir, None, offset).Finite?
  {
    hide CostAt;
  }

  lemma BlockCostsARead(image: seq<byte>, dir: Header, cached: Option<nat>, offset: nat)
    ensures var cost := EntryCost(image, dir, cached, offset);
            cost.Finite? ==> cost.value >= LoadCost(cached, offset).value
  {
    hide CostAt;
  }

  /** The block that the buffer holds after an attempt to read it on which nothing went wrong */
  function CachedAfter(image: seq<byte>, dir: Header, num: nat): Option<nat> {
    if BlockAt(image, dir.location + num).Some? then Some(num) else None
  }

  lemma MeaningNoPanic(image: seq<byte>, p: Parsed)
    ensures Meaning(image, p).Some? ==> !MeaningPanics(image, p)
  {
    hide BuildNode, AreaEntries, ChasePanics, Collected;
    PanicHasNoResult(image, Inline(InlineEntries(p)));
  }

  /** The image has the block of an entry that can be read. */
  lemma EntryHasBlock(image: seq<byte>, dir: Header, offset: nat)
    ensures EntryAt(image, dir, offset).Some? ==>
              CachedAfter(image, dir, offset / BLOCK) == Some(offset / BLOCK) && !EntryPanics(image, dir, offset)
  {
    hide ParseRecord, Meaning, MeaningPanics, NextOffset, AreasCost;
    var block := BlockAt(image, dir.location + offset / BLOCK);
    if block.Some? {
      var parsed := ParseRecord(block.value[offset % BLOCK..], dir.encoding);
      if parsed.Done? {
        MeaningNoPanic(image, parsed.value);
      }
    }
  }

  /** An entry that can be read takes finitely many reads. */
  lemma EntryCostIsFinite(image: seq<byte>, dir: Header, cached: Option<nat>, offset: nat)
    ensures EntryAt(image, dir, offset).Some? ==> EntryCost(image, dir, cached, offset).Finite?
  {
    hide ParseRecord, BuildNode, Collected, Steps, NextOffset, AreaEntries;
    var block := BlockAt(image, dir.location + offset / BLOCK);
    if block.Some? {
      var parsed := ParseRecord(block.value[offset % BLOCK..], dir.encoding);
      if parsed.Done? {
        CollectedStops(Reading(image), Inline(InlineEntries(parsed.value)));
      }
    }
  }

  /** The walk from a position on breaks off at an entry on which the reader panics. */
  ghost predicate EndsInPanic(image: seq<byte>, dir: Header, at: Option<nat>)
    decreases if at.Some? then 1 + Distance(at.value, Limit(dir)) else 0
  {
    EntryStep(image, dir, if at.Some? then at.value else 0);
    at.Some? &&
    match EntryAt(image, dir, at.value)
    case None => EntryPanics(image, dir, at.value)
    case Some(item) => EndsInPanic(image, dir, item.next)
  }

  /** Where a walk stands: the cached block and the next offset */
  datatype Cursor = Cursor(cached: Option<nat>, next: Option<nat>)

  /** The start of a walk */
  const START := Cursor(None, Some(0))

  /** The reads for the next call */
  ghost function NextCost(image: seq<byte>, dir: Header, c: Cursor): Cost {
    if c.next.None? then Finite(0) else EntryCost(image, dir, c.cached, c.next.value)
  }

  /** Where the next call leads, if nothing goes wrong: an entry that cannot be read stays the next one. */
  ghost function NextCursor(image: seq<byte>, dir: Header, c: Cursor): Cursor {
    if c.next.None? then c
    else
      Cursor(CachedAfter(image, dir, c.next.value / BLOCK),
             match EntryAt(image, dir, c.next.value)
             case None => c.next
             case Some(item) => item.next)
  }

  ghost function CursorAfter(image: seq<byte>, dir: Header, c: Cursor, calls: nat): Cursor {
    if calls == 0 then c else NextCursor(image, dir, CursorAfter(image, dir, c, calls - 1))
  }

  /** The reads for a number of calls, one after the other */
  ghost function CallsCost(image: seq<byte>, dir: Header, c: Cursor, calls: nat): Cost {
    if calls == 0 then Finite(0)
    else Plus(CallsCost(image, dir, c, calls - 1), NextCost(image, dir, CursorAfter(image, dir, c, calls - 1)))
  }

  lemma {:induction false} FewerCallsCostLess(image: seq<byte>, dir: Header, c: Cursor, m: nat, n: nat)
    requires m <= n && CallsCost(image, dir, c, n).Finite?
    ensures CallsCost(image, dir, c, m).Finite?
    ensures CallsCost(image, dir, c, m).value <= CallsCost(image, dir, c, n).value
    decreases n
  {
    hide NextCost, CursorAfter;
    if m < n {
      FewerCallsCostLess(image, dir, c, m, n - 1);
    }
  }

  /** The first call, and then the others */
  lemma {:induction false} CallsCostFirst(image: seq<byte>, dir: Header, c: Cursor, calls: nat)
    ensures CursorAfter(image, dir, c, calls + 1) == CursorAfter(image, dir, NextCursor(image, dir, c), calls)
    ensures CallsCost(image, dir, c, calls + 1)
         == Plus(NextCost(image, dir, c), CallsCost(image, dir, NextCursor(image, dir, c), calls))
  {
    hide NextCost, NextCursor;
    if calls > 0 {
      CallsCostFirst(image, dir, c, calls - 1);
    } else {
      assert CallsCost(image, dir, c, 0) == Finite(0) && CursorAfter(image, dir, c, 0) == c;
    }
  }

  /** Calls after the end read nothing. */
  lemma {:induction false} NothingAfterTheEnd(image: seq<byte>, dir: Header, c: Cursor, n: nat, calls: nat)
    requires n <= calls && CursorAfter(image, dir, c, n).next.None?
    ensures CursorAfter(image, dir, c, calls).next.None?
    ensures CallsCost(image, dir, c, calls) == CallsCost(image, dir, c, n)
    decreases calls
  {
    hide EntryAt, EntryCost;
    if n < calls {
      NothingAfterTheEnd(image, dir, c, n, calls - 1);
    }
  }

  /** Walking over a directory that can be read to its end takes finitely many reads. */
  lemma {:induction false} WalkCostIsFinite(image: seq<byte>, dir: Header, c: Cursor, calls: nat)
    requires Advances(Entries(image, dir), Limit(dir)) && CompleteFrom(Entries(image, dir), Limit(dir), c.next)
    ensures CallsCost(image, dir, c, calls).Finite?
    decreases calls
  {
    hide EntryAt, EntryCost;
    if calls > 0 {
      var next := NextCursor(image, dir, c);
      if c.next.Some? {
        EntryCostIsFinite(image, dir, c.cached, c.next.value);
        assert AdvancesAt(Entries(image, dir), Limit(dir), c.next.value);
      }
      WalkCostIsFinite(image, dir, next, calls - 1);
      CallsCostFirst(image, dir, c, calls - 1);
    }
  }

  /** Where a walk stands after some entries that can be read: past them, with the block of the last one cached */
  lemma {:induction false} CursorPast(image: seq<byte>, dir: Header, cached: Option<nat>, at: nat, m: nat)
    requires Advances(Entries(image, dir), Limit(dir)) && m <= |Listing(Entries(image, dir), Limit(dir), at)|
    ensures var items := Listing(Entries(image, dir), Limit(dir), at);
            var here := CursorAfter(image, dir, Cursor(cached, Some(at)), m);
            && here.next == Resumption(Some(at), items[..m])
            && (m == 0 ==> here.cached == cached)
            && (m > 0 ==> Resumption(Some(at), items[..m - 1]).Some?
                          && here.cached == Some(Resumption(Some(at), items[..m - 1]).value / BLOCK))
    decreases m
  {
    hide EntryAt, Listing, CachedAfter, Limit;
    var step, limit := Entries(image, dir), Limit(dir);
    var items := Listing(step, limit, at);
    if m == 0 {
      assert items[..0] == [];
    } else {
      CursorPast(image, dir, cached, at, m - 1);
      WalkedPast(step, limit, at, m - 1);
      EntryHasBlock(image, dir, Resumption(Some(at), items[..m - 1]).value);
      assert items[..m][m - 1] == items[m - 1];
    }
  }

  // ---- read_entry_at ----

  /** The cache says which block of the directory the buffer holds; this is when it is right about `num`. */
  ghost predicate Caches(image: seq<byte>, dir: Header, block: seq<byte>, cached: Option<nat>, num: nat) {
    cached == Some(num) ==> BlockAt(image, dir.location + num) == Some(block)
  }

  /** A cache that is empty, or right about its own block, is right about any other. */
  lemma CachesAny(image: seq<byte>, dir: Header, block: seq<byte>, cached: Option<nat>, num: nat)
    requires cached.Some? ==> Caches(image, dir, block, cached, cached.value)
    ensures Caches(image, dir, block, cached, num)
  {
  }

  lemma BuildReadsNothing(h: Header, id: Text, es: seq<Entry>)
    ensures BuildNode(h, id, es) != Err(Io)
  {
  }

  /** The first part of `read_entry_at`: make sure the buffer holds the block, by one read unless it is cached. */
  method LoadBlock(dev: Device, dir: Header, block: array<byte>, cached: Option<nat>, num: nat)
    returns (r: Result<()>, now: Option<nat>)
    requires block.Length == BLOCK && Caches(dev.image, dir, block[..], cached, num)
    modifies dev, block
    ensures dev.served == old(dev.served) + if cached == Some(num) then 0 else 1
    ensures Caches(dev.image, dir, block[..], now, num)
    ensures r.Ok? ==> now == Some(num)
    ensures r == Err(Io) <==> dev.LastFailed(old(dev.served))
    ensures r.Err? ==> cached != Some(num) && now != Some(num) && (r.error == Io || r.error.ReadSize?)
    ensures r.Err? && dev.FaultFreeSince(old(dev.served)) ==>
              r.error != Io && now == None && BlockAt(dev.image, dir.location + num).None?
  {
    now := cached;
    if cached != Some(num) {
      var lba := dir.location + num;
      ghost var before, o := block[..], dev.Next();
      var count := dev.ReadAt(block, lba);
      assert dev.FaultFreeSince(dev.served - 1) ==> OutcomeAt(dev.script, dev.served - 1).Full?;
      if count.Err? {
        return Err(count.error), now;
      }
      if count.value != BLOCK {
        return Err(ReadSize(count.value)), None;
      }
      WholeBlockRead(dev.image, lba, before, o);
      now := Some(num);
    }
    r := Ok(());
  }

  /** How reading an entry may end with an error, and how in a panic, when that many reads were due */
  ghost predicate ErrorExplained(image: seq<byte>, dir: Header, offset: nat, cost: Cost, error: Failure) {
    if error == Panic then EntryPanics(image, dir, offset) || AreasDue(image, dir, offset)
    else EntryFails(image, dir, offset) || cost != Finite(0)
  }

  /** What a read of an entry makes of a block in the buffer: the record, its areas, and the entry */
  lemma EntryBuilt(image: seq<byte>, p: Parsed, susp: seq<Entry>)
    requires Some(susp) == After(Others(InlineEntries(p)), Collected(Reading(image), Inline(InlineEntries(p))))
    requires !ChasePanics(image, Inline(InlineEntries(p)))
    ensures var node := BuildNode(p.header, p.identifier, susp);
            && Meaning(image, p) == (if node.Ok? then Some(node.value) else None)
            && MeaningPanics(image, p) == (node == Err(Panic))
            && node != Err(Io)
  {
    hide BuildNode, ChasePanics, Collected, AreaEntries;
    BuildReadsNothing(p.header, p.identifier, susp);
  }

  lemma NothingBuilt(image: seq<byte>, p: Parsed)
    requires Collected(Reading(image), Inline(InlineEntries(p))).None?
    ensures Meaning(image, p) == None
    ensures MeaningPanics(image, p) == ChasePanics(image, Inline(InlineEntries(p)))
  {
    hide BuildNode, ChasePanics, AreaEntries;
  }

  /** The middle part of `read_entry_at`: what the areas of a record and its own fields make of it */
  method BuildEntry(dev: Device, p: Parsed) returns (r: Result<Node>)
    modifies dev
    ensures dev.Spent(old(dev.served), AreasCost(dev.image, p))
    ensures r == Err(Io) <==> dev.LastFailed(old(dev.served))
    ensures r.Ok? ==> Meaning(dev.image, p) == Some(r.value) && AreasCost(dev.image, p).Finite?
    ensures dev.CalmSince(old(dev.served)) ==>
              && (r.Err? ==> r.error != Io && Meaning(dev.image, p).None?)
              && (r == Err(Panic) <==> MeaningPanics(dev.image, p))
    ensures r.Err? && dev.served == old(dev.served) ==>
              && Meaning(dev.image, p).None? && AreasCost(dev.image, p).Finite?
              && MeaningPanics(dev.image, p) == (r.error == Panic)
    ensures r.Err? && Inline(InlineEntries(p)) == [] ==> dev.served == old(dev.served)
  {
    hide BuildNode, AreaEntries, Collected, Steps, ChasePanics, Meaning, MeaningPanics;
    NoSteps(Reading(dev.image));
    var susp := FollowContinuations(dev, InlineEntries(p));
    if susp.Err? {
      if Collected(Reading(dev.image), Inline(InlineEntries(p))).None? {
        NothingBuilt(dev.image, p);
      }
      return Err(susp.error);
    }
    EntryBuilt(dev.image, p, susp.value);
    return BuildNode(p.header, p.identifier, susp.value);
  }

  /** The second part of `read_entry_at`, with the block in the buffer */
  method ReadFromBlock(dev: Device, dir: Header, block: array<byte>, offset: nat) returns (r: Result<Item>)
    requires block.Length == BLOCK && BlockAt(dev.image, dir.location + offset / BLOCK) == Some(block[..])
    modifies dev
    ensures dev.Spent(old(dev.served), EntryCost(dev.image, dir, Some(offset / BLOCK), offset))
    ensures r == Err(Io) <==> dev.LastFailed(old(dev.served))
    ensures r.Ok? ==> EntryAt(dev.image, dir, offset) == Some(r.value)
    ensures dev.CalmSince(old(dev.served)) ==>
              && (r.Err? ==> r.error != Io && EntryAt(dev.image, dir, offset).None?)
              && (r == Err(Panic) <==> EntryPanics(dev.image, dir, offset))
    ensures r.Err? ==> ErrorExplained(dev.image, dir, offset, EntryCost(dev.image, dir, Some(offset / BLOCK), offset),
                                      r.error)
  {
    hide ParseRecord, Meaning, MeaningPanics, NextOffset, EntryCost, EntryAt, EntryPanics, BlockAt, CachedAfter;
    hide Inline, AreasCost, AreasDue, AllFull, Caches;
    BlockParsed(dev.image, dir, Some(offset / BLOCK), offset, block[..]);
    CachedOrNot(dev.image, dir, Some(offset / BLOCK), offset);
    var pos := offset % BLOCK;
    var parsed := ParseRecord(block[pos..], dir.encoding);
    assert block[..][pos..] == block[pos..];
    if !parsed.Done? {
      return Err(if parsed.Fail? then Nom else Panic);
    }
    var p := parsed.value;
    var node := BuildEntry(dev, p);
    if node.Err? {
      return Err(node.error);
    }
    return Ok(Item(node.value, NextOffset(dir.size, block[..], offset, p.header.length as int)));
  }

  /** What is left to be read once a block is loaded */
  lemma LoadThenRead(image: seq<byte>, dir: Header, cached: Option<nat>, offset: nat, error: Failure)
    ensures EntryCost(image, dir, cached, offset)
         == Plus(LoadCost(cached, offset), EntryCost(image, dir, Some(offset / BLOCK), offset))
    ensures ErrorExplained(image, dir, offset, EntryCost(image, dir, Some(offset / BLOCK), offset), error) ==>
              ErrorExplained(image, dir, offset, EntryCost(image, dir, cached, offset), error)
  {
    hide CostAt, EntryPanics, EntryFails, AreasDue;
  }

  /**
   * `read_entry_at`, with any pattern of failing and short reads: a result is the entry that the
   * image holds there, and no more is read than the entry takes. If none of the reads made goes
   * wrong, and on whole blocks, an error means that the image holds no readable entry there, and a
   * panic that it holds one on which the reader panics.
   */
  method ReadEntryAt(dev: Device, dir: Header, block: array<byte>, cached: Option<nat>, offset: nat)
    returns (r: Result<Item>, now: Option<nat>)
    requires block.Length == BLOCK && Caches(dev.image, dir, block[..], cached, offset / BLOCK)
    modifies dev, block
    ensures dev.Spent(old(dev.served), EntryCost(dev.image, dir, cached, offset))
    ensures r == Err(Io) <==> dev.LastFailed(old(dev.served))
    ensures Caches(dev.image, dir, block[..], now, offset / BLOCK)
    ensures r.Ok? ==> now == Some(offset / BLOCK) && Entries(dev.image, dir)(offset) == Some(r.value)
    ensures dev.CalmSince(old(dev.served)) ==>
              && now == CachedAfter(dev.image, dir, offset / BLOCK)
              && (r.Err? ==> r.error != Io && Entries(dev.image, dir)(offset).None?)
              && (r == Err(Panic) <==> EntryPanics(dev.image, dir, offset))
    ensures r.Err? ==>
              ErrorExplained(dev.image, dir, offset, EntryCost(dev.image, dir, cached, offset), r.error)
  {
    hide EntryCost, EntryAt, EntryPanics, EntryFails, BlockAt, AllFull;
    ghost var before := dev.served;
    var loaded, now' := LoadBlock(dev, dir, block, cached, offset / BLOCK);
    now := now';
    if loaded.Err? {
      if BlockAt(dev.image, dir.location + offset / BLOCK).None? {
        NoBlock(dev.image, dir, cached, offset);
      } else {
        BlockCostsARead(dev.image, dir, cached, offset);
      }
      return Err(loaded.error), now;
    }
    ghost var mid := dev.served;
    r := ReadFromBlock(dev, dir, block, offset);
    LoadThenRead(dev.image, dir, cached, offset, if r.Err? then r.error else Io);
    if dev.FaultFreeSince(before) {
      AllFullWithin(dev.script, before, mid, dev.served, dev.served);
    }
  }

  // ---- the iterator ----

  class DirectoryIterator {
    const dev: Device
    const dir: Header
    const block: array<byte>
    var cached: Option<nat>
    var next: Option<nat>

    /** The buffer may hold anything, but not under the number of the block to be parsed next. */
    ghost predicate Valid()
      reads this, block
    {
      block.Length == BLOCK && (next.Some? ==> Caches(dev.image, dir, block[..], cached, next.value / BLOCK))
    }

    function Here(): Cursor
      reads this
    {
      Cursor(cached, next)
    }

    /** The entries still to come, according to the image */
    ghost function Left(): seq<Item>
      reads this
    {
      EntriesAdvance(dev.image, dir);
      Remaining(Entries(dev.image, dir), Limit(dir), next)
    }

    ghost predicate LeftComplete()
      reads this
    {
      EntriesAdvance(dev.image, dir);
      CompleteFrom(Entries(dev.image, dir), Limit(dir), next)
    }

    /** `contents` */
    constructor (dev: Device, dir: Header)
      ensures this.dev == dev && this.dir == dir && fresh(block) && cached.None? && next == Some(0) && Valid()
    {
      this.dev, this.dir := dev, dir;
      block := new byte[BLOCK](_ => 0);
      cached, next := None, Some(0);
    }

    /**
     * `next`: an entry is the first one left and is then no longer left; an error changes nothing
     * of what is left; the end is reached exactly when nothing is left to be read.
     */
    method Next() returns (r: Option<Result<Node>>)
      requires Valid()
      modifies this, dev, block
      ensures Valid() && dev.Spent(old(dev.served), NextCost(dev.image, dir, old(Here())))
      ensures r.None? <==> old(next).None?
      ensures r == Some(Err(Io)) <==> dev.LastFailed(old(dev.served))
      ensures r.None? ==> next.None?
      ensures r.Some? && r.value.Ok? ==>
                && old(Left()) == [Item(r.value.value, next)] + Left()
                && (old(LeftComplete()) <==> LeftComplete())
                && (next.Some? ==> old(next).value < next.value < Limit(dir))
                && EntryAt(dev.image, dir, old(next).value) == Some(Item(r.value.value, next))
      ensures r.Some? && r.value.Err? ==>
                next == old(next) && Left() == old(Left()) && LeftComplete() == old(LeftComplete())
      ensures (r.Some? ==> r.value.Ok?) || dev.CalmSince(old(dev.served)) ==>
                Here() == NextCursor(dev.image, dir, old(Here()))
      ensures dev.CalmSince(old(dev.served)) && r.Some? ==>
                && (r.value.Err? ==> r.value.error != Io && !LeftComplete() && Left() == [])
                && (r.value.Err? ==> EntryAt(dev.image, dir, next.value).None?)
                && (r.value == Err(Panic) <==> EntryPanics(dev.image, dir, old(next).value))
    {
      hide EntryAt, EntryCost, EntryPanics, EntryFails, AreasDue, AllFull, Device.WholeBlocks;
      if next.None? {
        return None;
      }
      var offset := next.value;
      EntriesAdvance(dev.image, dir);
      EntryHasBlock(dev.image, dir, offset);
      assert AdvancesAt(Entries(dev.image, dir), Limit(dir), offset);
      var entry, now := ReadEntryAt(dev, dir, block, cached, offset);
      cached := now;
      if entry.Err? {
        return Some(Err(entry.error));
      }
      next := entry.value.next;
      return Some(Ok(entry.value.node));
    }
  }

  /** What came out of a walk so far, and what is left of it, make up the whole walk. */
  ghost predicate SoFar(it: DirectoryIterator, all: seq<Node>, whole: bool, nodes: seq<Node>)
    reads it, it.block
  {
    it.Valid() && all == nodes + Nodes(it.Left()) && whole == it.LeftComplete()
  }

  /** `k` calls lead to `here`, and take the reads from `before` to `served`. */
  ghost predicate AlongCourse(image: seq<byte>, dir: Header, from: Cursor, before: nat, k: nat, here: Cursor,
                              served: nat)
  {
    && served >= before && here == CursorAfter(image, dir, from, k)
    && CallsCost(image, dir, from, k) == Finite(served - before)
  }

  /** Nothing has gone wrong in `k` calls: the walk is where they lead, and has read as much as they take. */
  ghost predicate OnCourse(it: DirectoryIterator, from: Cursor, before: nat, k: nat)
    reads it, it.dev
  {
    AlongCourse(it.dev.image, it.dir, from, before, k, it.Here(), it.dev.served)
  }

  lemma StaysOnCourse(it: DirectoryIterator, from: Cursor, before: nat, k: nat, here: Cursor, served: nat)
    requires AlongCourse(it.dev.image, it.dir, from, before, k, here, served) && it.dev.CalmSince(served)
    requires it.dev.Spent(served, NextCost(it.dev.image, it.dir, here))
    requires it.Here() == NextCursor(it.dev.image, it.dir, here)
    ensures OnCourse(it, from, before, k + 1)
  {
    hide NextCost, NextCursor, AllFull, Device.WholeBlocks;
  }

  /** One call of `next` before the end */
  method CallNext(it: DirectoryIterator, ghost all: seq<Node>, ghost whole: bool, ghost nodes: seq<Node>,
                  ghost from: Cursor, ghost before: nat, ghost k: nat)
    returns (r: Result<Node>)
    requires SoFar(it, all, whole, nodes) && it.next.Some?
    modifies it, it.dev, it.block
    ensures it.dev.Spent(old(it.dev.served), NextCost(it.dev.image, it.dir, old(it.Here())))
    ensures SoFar(it, all, whole, if r.Ok? then nodes + [r.value] else nodes)
    ensures r.Ok? ==> all != nodes
    ensures it.dev.CalmSince(old(it.dev.served)) ==>
              && (r.Err? ==> !whole && all == nodes)
              && (old(OnCourse(it, from, before, k)) ==> OnCourse(it, from, before, k + 1))
  {
    hide Entries, EntryAt, EntryPanics, Listing, Complete, Nodes, NextCost, NextCursor, CallsCost, CursorAfter, Limit;
    hide Caches, AllFull, Device.WholeBlocks, AlongCourse, DirectoryIterator.Left, DirectoryIterator.LeftComplete;
    ghost var here, served := it.Here(), it.dev.served;
    var next := it.Next();
    r := next.value;
    NothingLeft();
    if old(OnCourse(it, from, before, k)) && it.dev.CalmSince(served) {
      StaysOnCourse(it, from, before, k, here, served);
    }
    if r.Ok? {
      NodesOneMore(Item(r.value, it.next), it.Left());
    }
  }

  lemma NothingLeft()
    ensures Nodes([]) == []
  {
  }

  /** Where the reads for all calls will go well, those for the next one will, and it does not use up more. */
  lemma NextLasts(it: DirectoryIterator, from: Cursor, before: nat, k: nat, calls: nat)
    requires OnCourse(it, from, before, k) && k < calls && CallsCost(it.dev.image, it.dir, from, calls).Finite?
    ensures var next, all := NextCost(it.dev.image, it.dir, it.Here()), CallsCost(it.dev.image, it.dir, from, calls);
            next.Finite? && it.dev.served + next.value <= before + all.value
  {
    hide NextCost, NextCursor;
    FewerCallsCostLess(it.dev.image, it.dir, from, k + 1, calls);
  }

  /** All calls of a walk cost what it has read, also when it came to the end before the last one. */
  lemma SpentSoFar(it: DirectoryIterator, from: Cursor, before: nat, k: nat, calls: nat)
    requires OnCourse(it, from, before, k) && k <= calls && (k == calls || it.next.None?)
    ensures CallsCost(it.dev.image, it.dir, from, calls) == Finite(it.dev.served - before)
  {
    hide NextCost, NextCursor;
    if k < calls {
      NothingAfterTheEnd(it.dev.image, it.dir, from, k, calls);
    }
  }

  /** Every error is paid for by a fault, unless the walk has come to an entry that cannot be read. */
  ghost predicate Accounted(it: DirectoryIterator, all: seq<Node>, whole: bool, nodes: seq<Node>,
                            errors: seq<Failure>, before: nat)
    reads it.dev
  {
    || |errors| <= Faults(it.dev.script, before, it.dev.served)
    || (!whole && all == nodes)
  }

  /**
   * Any number of calls of `next`, with any pattern of faults: the entries that come out are the
   * first ones left, in order, none lost or repeated or made up; at the end they are all. On whole
   * blocks every read that goes wrong costs at most one call: all other calls give the next entry as
   * long as it can be read, so that enough calls reach the end of a directory that can be read to its
   * end, whenever the faults come. If the reads to come go well, as many as the calls take, none does.
   */
  method Run(it: DirectoryIterator, calls: nat) returns (nodes: seq<Node>, errors: seq<Failure>)
    requires it.Valid()
    modifies it, it.dev, it.block
    ensures it.Valid() && it.dev.served >= old(it.dev.served)
    ensures Nodes(old(it.Left())) == nodes + Nodes(it.Left())
    ensures old(it.LeftComplete()) == it.LeftComplete()
    ensures it.next.None? ==> nodes == Nodes(old(it.Left())) && old(it.LeftComplete())
    ensures it.next.Some? ==> |nodes| + |errors| == calls
    ensures it.dev.WholeBlocks() ==>
              var faults := Faults(it.dev.script, old(it.dev.served), it.dev.served);
              && |nodes| + faults >= Min(calls, |old(it.Left())|)
              && (old(it.LeftComplete()) ==>
                    |errors| <= faults && (calls >= |old(it.Left())| + faults ==> it.next.None?))
    ensures var cost := CallsCost(it.dev.image, it.dir, old(it.Here()), calls);
            && (it.dev.CalmSince(old(it.dev.served)) ==> cost == Finite(it.dev.served - old(it.dev.served)))
            && (old(it.dev.Quiet(cost)) ==>
                  && it.dev.FaultFreeSince(old(it.dev.served))
                  && nodes == Nodes(old(it.Left()))[..Min(calls, |old(it.Left())|)]
                  && (old(it.LeftComplete()) && calls >= |old(it.Left())| ==> errors == [] && it.next.None?))
  {
    hide Entries, Listing, Complete, Nodes, NextCost, NextCursor, Caches, BlockCount, AllFull, CallsCost, CursorAfter;
    hide SoFar, OnCourse, Device.WholeBlocks, Limit, DirectoryIterator.Left, DirectoryIterator.LeftComplete, Faults;
    nodes, errors := [], [];
    ghost var all, whole, from, before := Nodes(it.Left()), it.LeftComplete(), it.Here(), it.dev.served;
    ghost var cost := CallsCost(it.dev.image, it.dir, from, calls);
    ghost var enough := it.dev.Quiet(cost);
    WalkBegins(it);
    var k := 0;
    while k < calls && it.next.Some?
      invariant k <= calls && |nodes| + |errors| == k && it.dev.served >= before
      invariant SoFar(it, all, whole, nodes)
      invariant it.dev.WholeBlocks() ==> Accounted(it, all, whole, nodes, errors, before)
      invariant it.dev.CalmSince(before) ==> OnCourse(it, from, before, k)
      invariant enough ==> it.dev.FaultFreeSince(before)
    {
      ghost var here := it.dev.served;
      if enough {
        NextLasts(it, from, before, k, calls);
      }
      var r := CallNext(it, all, whole, nodes, from, before, k);
      SinceThen(it.dev, before, here);
      if enough {
        it.dev.LastedSince(before, cost);
      }
      if r.Ok? {
        nodes := nodes + [r.value];
      } else {
        errors := errors + [r.error];
      }
      k := k + 1;
    }
    if it.dev.CalmSince(before) {
      SpentSoFar(it, from, before, k, calls);
    }
    WalkEnds(it, all, whole, nodes, errors, calls, before);
  }

  /** What has gone well since an earlier moment has gone well since a later one; what went wrong counts. */
  lemma SinceThen(dev: Device, before: nat, here: nat)
    requires before <= here <= dev.served
    ensures dev.FaultFreeSince(before) ==> dev.FaultFreeSince(here) && AllFull(dev.script, before, here)
    ensures Faults(dev.script, before, dev.served) >= Faults(dev.script, before, here)
    ensures !dev.FaultFreeSince(here) ==>
              Faults(dev.script, before, dev.served) > Faults(dev.script, before, here)
  {
    OneFaultMore(dev.script, before, here, dev.served);
  }

  lemma WalkBegins(it: DirectoryIterator)
    requires it.Valid()
    ensures SoFar(it, Nodes(it.Left()), it.LeftComplete(), [])
    ensures OnCourse(it, it.Here(), it.dev.served, 0)
    ensures it.dev.FaultFreeSince(it.dev.served)
  {
    hide Entries, Listing, Complete, Nodes, NextCost, NextCursor, Caches;
  }

  lemma WalkEnds(it: DirectoryIterator, all: seq<Node>, whole: bool, nodes: seq<Node>, errors: seq<Failure>,
                 calls: nat, before: nat)
    requires SoFar(it, all, whole, nodes) && |nodes| + |errors| <= calls
    requires it.next.Some? ==> |nodes| + |errors| == calls
    requires it.dev.WholeBlocks() ==> Accounted(it, all, whole, nodes, errors, before)
    ensures it.Valid() && all == nodes + Nodes(it.Left()) && whole == it.LeftComplete()
    ensures it.next.None? ==> nodes == all && whole
    ensures it.dev.WholeBlocks() ==>
              var faults := Faults(it.dev.script, before, it.dev.served);
              && |nodes| + faults >= Min(calls, |all|)
              && (whole ==> |errors| <= faults && (calls >= |all| + faults ==> it.next.None?))
              && (it.dev.FaultFreeSince(before) ==> faults == 0 && nodes == all[..Min(calls, |all|)])
  {
    hide Entries, Listing, Complete, Nodes, Caches;
    EntriesAdvance(it.dev.image, it.dir);
    FaultsCount(it.dev.script, before, it.dev.served);
    if whole {
      SomethingLeft(Entries(it.dev.image, it.dir), Limit(it.dir), it.next);
    }
    NothingLeft();
    if it.next.None? {
      NothingAtTheEnd(Entries(it.dev.image, it.dir), Limit(it.dir));
    }
  }

  lemma NothingAtTheEnd(step: Stepper, limit: nat)
    requires Advances(step, limit)
    ensures Remaining(step, limit, None) == [] && CompleteFrom(step, limit, None)
  {
  }
}
