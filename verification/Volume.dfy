/**
 Opening a volume: the descriptors from block 16 on (section 8 of ECMA-119) and the scan over them.
 */
module Volume {
  import opened Base
  import opened Strings
  import opened Susp
  import opened Record
  import opened BlockDevice

  datatype Table = Table(blockSize: u16, root: Header, rootId: Text)

  datatype Descriptor = Primary(table: Table) | Supplementary(table: Table) | BootRecord | Terminator | Other

  /** "CD001" and version 1 */
  const STANDARD: seq<byte> := [67, 68, 48, 48, 49, 1]

  /** `character_encoding` on its 32-byte field */
  function EncodingOf(field: seq<byte>): Option<Encoding> {
    if [0x25, 0x2F, 0x40] <= field || [0x25, 0x2F, 0x43] <= field || [0x25, 0x2F, 0x45] <= field then Some(Ucs2)
    else if field == Zeros(32) then Some(Iso9660)
    else None
  }

  /** `ascii_i32`: a number with an optional sign, or nothing but NULs */
  predicate IsNumber(s: seq<byte>) {
    || (forall k :: 0 <= k < |s| ==> s[k] == 0)
    || (var digits := if s != [] && s[0] in {43, 45} then s[1..] else s;
        digits != [] && forall k :: 0 <= k < |digits| ==> 48 <= digits[k] <= 57)
  }

  /** `date_time_ascii` accepts the 17-byte field. */
  predicate IsDate(s: seq<byte>)
    requires |s| == 17
  {
    IsNumber(s[..4]) && IsNumber(s[4..6]) && IsNumber(s[6..8]) && IsNumber(s[8..10]) && IsNumber(s[10..12])
    && IsNumber(s[12..14]) && IsNumber(s[14..16])
  }

  /** The offsets of the identifiers that are decoded, from the start of the block or of what follows the root record */
  predicate Decodes(enc: Encoding, b: seq<byte>, rest: seq<byte>)
    requires |b| == BLOCK && |rest| >= 692
  {
    && Decode(enc, b[8..40]).Ok? && Decode(enc, b[40..72]).Ok?
    && Decode(enc, rest[..128]).Ok? && Decode(enc, rest[128..256]).Ok? && Decode(enc, rest[256..384]).Ok?
    && Decode(enc, rest[384..512]).Ok? && Decode(enc, rest[512..550]).Ok? && Decode(enc, rest[550..586]).Ok?
  }

  /** `descriptor_table` */
  function ParseTable(b: seq<byte>): Parse<Table>
    requires |b| == BLOCK
  {
    match EncodingOf(b[88..120])
    case None => Fail
    case Some(enc) =>
      var (root, rest) :- ParseRecord(b[156..], enc);
      if |rest| < 692 then Fail
      else if !(IsDate(rest[623..640]) && IsDate(rest[640..657])) then Fail
      else if !(IsDate(rest[657..674]) && IsDate(rest[674..691])) then Fail
      else if !Decodes(enc, b, rest) then if enc.Iso9660? then Fail else Panicked
      else if !ValidUtf8(rest[586..623]) then Fail
      else Done(Table(LE16(b, 128), root.header, root.identifier), rest[692..])
  }

  /** `volume_descriptor` */
  function ParseDescriptor(b: seq<byte>): Parse<Descriptor>
    requires |b| == BLOCK
  {
    if b[1..7] != STANDARD then Fail
    else if b[0] == 0 then if ValidUtf8(b[7..39]) && ValidUtf8(b[39..71]) then Done(BootRecord, []) else Fail
    else if b[0] == 1 then
      var (table, rest) :- ParseTable(b);
      Done(Primary(table), rest)
    else if b[0] == 2 then
      var (table, rest) :- ParseTable(b);
      Done(Supplementary(table), rest)
    else if b[0] == 255 then Done(Terminator, b[7..])
    else Done(Other, b[7..])
  }

  /** The escape sequences field that announces an encoding: none, or one of the three of Joliet */
  predicate Announces(field: seq<byte>, enc: Encoding)
    requires |field| == 32
  {
    match enc
    case Iso9660 => field == Zeros(32)
    case Ucs2 => exists level :: level in {0x40, 0x43, 0x45} && field[..3] == [0x25, 0x2F, level]
  }

  /** The fields of a primary or supplementary descriptor, in the order of section 8.4 of ECMA-119 */
  ghost predicate LaidOut(b: seq<byte>, enc: Encoding, blockSize: u16, root: Raw, rootId: Text)
    requires |b| == BLOCK
  {
    && Announces(b[88..120], enc)
    && b[128..132] == Print16(blockSize)
    && root.Valid() && b[156..156 + root.Length()] == PrintRecord(root)
    && DecodeIdentifier(enc, root.id) == Ok(rootId) && !ParseSystemUse(root.use).Panicked?
    && var rest := b[156 + root.Length()..];
       && Decodes(enc, b, rest) && ValidUtf8(rest[586..623])
       && IsDate(rest[623..640]) && IsDate(rest[640..657]) && IsDate(rest[657..674]) && IsDate(rest[674..691])
  }

  lemma RootReadsBack(b: seq<byte>, enc: Encoding, root: Raw, rootId: Text)
    requires |b| == BLOCK && root.Valid() && b[156..156 + root.Length()] == PrintRecord(root)
    requires DecodeIdentifier(enc, root.id) == Ok(rootId) && !ParseSystemUse(root.use).Panicked?
    ensures var r := ParseRecord(b[156..], enc);
            && r.Done? && r.rest == b[156 + root.Length()..]
            && r.value.header == root.HeaderIn(enc) && r.value.identifier == rootId
  {
    hide ParseRecord, ParseSystemUse, PrintRecord, DecodeIdentifier;
    var at := 156 + root.Length();
    RecordRoundTrip(root, enc, b[at..]);
    assert b[156..] == b[156..at] + b[at..];
  }

  lemma EncodingReadsBack(field: seq<byte>, enc: Encoding)
    requires |field| == 32 && Announces(field, enc)
    ensures EncodingOf(field) == Some(enc)
  {
    if enc.Iso9660? {
      assert field[0] == 0;
    }
  }

  /**
   * Every kind of descriptor is read back: the two boot texts, the fields of a primary or
   * supplementary descriptor in either encoding and with any root record, and the terminator.
   */
  lemma DescriptorRoundTrip(b: seq<byte>, enc: Encoding, blockSize: u16, root: Raw, rootId: Text)
    requires |b| == BLOCK && b[1..7] == STANDARD
    ensures b[0] in {1, 2} && LaidOut(b, enc, blockSize, root, rootId) ==>
              var table := Table(blockSize, root.HeaderIn(enc), rootId);
              && ParseDescriptor(b).Done?
              && ParseDescriptor(b).value == if b[0] == 1 then Primary(table) else Supplementary(table)
    ensures b[0] == 0 ==>
              if ValidUtf8(b[7..39]) && ValidUtf8(b[39..71]) then ParseDescriptor(b) == Done(BootRecord, [])
              else ParseDescriptor(b).Fail?
    ensures b[0] == 255 ==> ParseDescriptor(b) == Done(Terminator, b[7..])
    ensures 2 < b[0] < 255 ==> ParseDescriptor(b) == Done(Other, b[7..])
  {
    hide ParseRecord, ValidUtf8, IsDate, PrintRecord, Decodes, EncodingOf, Announces, DecodeIdentifier, ParseSystemUse;
    if LaidOut(b, enc, blockSize, root, rootId) {
      EncodingReadsBack(b[88..120], enc);
      RootReadsBack(b, enc, root, rootId);
      Print16ReadsBack(b, 128, blockSize);
    }
  }

  datatype Volume = Volume(primary: Table, supplementary: Option<Table>)

  function WrongSize(d: Descriptor): bool {
    (d.Primary? || d.Supplementary?) && d.table.blockSize != 2048
  }

  /** The scan from a block on, with what the blocks before it gave */
  function Scan(image: seq<byte>, lba: nat, primary: Option<Table>, supplementary: Option<Table>): Result<Volume>
    decreases |image| - lba * BLOCK
  {
    match BlockAt(image, lba)
    case None => Err(ReadSize(Available(image, lba, BLOCK)))
    case Some(block) =>
      match ParseDescriptor(block)
      case Fail => Err(Nom)
      case Panicked => Err(Panic)
      case Done(d, _) =>
        if WrongSize(d) then Err(InvalidFs)
        else
          match d
          case Primary(table) => Scan(image, lba + 1, Some(table), supplementary)
          case Supplementary(table) => Scan(image, lba + 1, primary, Some(table))
          case Terminator => if primary.None? then Err(InvalidFs) else Ok(Volume(primary.value, supplementary))
          case _ => Scan(image, lba + 1, primary, supplementary)
  }

  function DescriptorAt(image: seq<byte>, lba: nat): Option<Descriptor> {
    match BlockAt(image, lba)
    case None => None
    case Some(block) =>
      match ParseDescriptor(block)
      case Done(d, _) => Some(d)
      case _ => None
  }

  predicate PassesOver(image: seq<byte>, lba: nat) {
    var d := DescriptorAt(image, lba);
    d.Some? && !d.value.Terminator? && !WrongSize(d.value)
  }

  /** How many blocks the scan from a block on reads: as long as there are descriptors to pass over, and one more */
  function ScanCost(image: seq<byte>, lba: nat): nat
    decreases |image| - lba * BLOCK
  {
    1 + if PassesOver(image, lba) then ScanCost(image, lba + 1) else 0
  }

  /**
   * `ISO9660::new`: the loop ends on every image, since every image is finite, after at most as many
   * reads as there are descriptors; if none of the reads made goes wrong, the answer is the one the
   * image determines.
   */
  method Open(dev: Device) returns (r: Result<Volume>)
    modifies dev
    ensures dev.served >= old(dev.served)
    ensures r.Ok? ==> Scan(dev.image, 16, None, None) == r
    ensures dev.served <= old(dev.served) + ScanCost(dev.image, 16)
    ensures r == Err(Io) <==> dev.LastFailed(old(dev.served))
    ensures dev.FaultFreeSince(old(dev.served)) ==>
              Scan(dev.image, 16, None, None) == r && dev.served == old(dev.served) + ScanCost(dev.image, 16)
    ensures old(dev.Lasts(Finite(ScanCost(dev.image, 16)))) ==> dev.FaultFreeSince(old(dev.served))
  {
    hide ParseDescriptor;
    var buf := new byte[BLOCK](_ => 0);
    var primary: Option<Table>, supplementary: Option<Table>, lba := None, None, 16;
    while true
      invariant dev.served >= old(dev.served) && !dev.LastFailed(old(dev.served))
      invariant Scan(dev.image, 16, None, None) == Scan(dev.image, lba, primary, supplementary)
      invariant dev.served - old(dev.served) + ScanCost(dev.image, lba) == ScanCost(dev.image, 16)
      decreases |dev.image| - lba * BLOCK
    {
      ghost var before, o := buf[..], dev.Next();
      var count := dev.ReadAt(buf, lba);
      assert dev.FaultFreeSince(old(dev.served)) ==> OutcomeAt(dev.script, dev.served - 1).Full?;
      if count.Err? {
        return Err(count.error);
      }
      if count.value != BLOCK {
        return Err(ReadSize(count.value));
      }
      WholeBlockRead(dev.image, lba, before, o);
      var parsed := ParseDescriptor(buf[..]);
      if !parsed.Done? {
        return Err(if parsed.Fail? then Nom else Panic);
      }
      var d := parsed.value;
      if WrongSize(d) {
        return Err(InvalidFs);
      }
      match d {
        case Primary(table) => primary := Some(table);
        case Supplementary(table) => supplementary := Some(table);
        case Terminator => break;
        case _ =>
      }
      lba := lba + 1;
    }
    if primary.None? {
      return Err(InvalidFs);
    }
    return Ok(Volume(primary.value, supplementary));
  }

  // ---- what the scan selects ----

  /** The last primary descriptor in a range of blocks */
  function LastPrimary(image: seq<byte>, lo: nat, hi: nat): Option<Table> {
    if hi <= lo then None
    else
      match DescriptorAt(image, hi - 1)
      case Some(Primary(table)) => Some(table)
      case _ => LastPrimary(image, lo, hi - 1)
  }

  function LastSupplementary(image: seq<byte>, lo: nat, hi: nat): Option<Table> {
    if hi <= lo then None
    else
      match DescriptorAt(image, hi - 1)
      case Some(Supplementary(table)) => Some(table)
      case _ => LastSupplementary(image, lo, hi - 1)
  }

  /** Block `end` holds the first terminator from `from` on, and every block before it a descriptor to pass over. */
  ghost predicate EndsAt(image: seq<byte>, from: nat, end: nat) {
    && from <= end
    && DescriptorAt(image, end) == Some(Terminator)
    && forall k :: from <= k < end ==> PassesOver(image, k)
  }

  /** Block `end` ends the scan, and the volume is given by the last descriptors before it. */
  ghost predicate SelectedBefore(image: seq<byte>, from: nat, end: nat, v: Volume) {
    && EndsAt(image, from, end)
    && LastPrimary(image, 16, end) == Some(v.primary)
    && LastSupplementary(image, 16, end) == v.supplementary
  }

  ghost predicate Selects(image: seq<byte>, from: nat, v: Volume) {
    exists end: nat :: SelectedBefore(image, from, end, v)
  }

  lemma SelectsNext(image: seq<byte>, lba: nat, v: Volume)
    requires PassesOver(image, lba)
    ensures Selects(image, lba, v) <==> Selects(image, lba + 1, v)
  {
    hide DescriptorAt, LastPrimary, LastSupplementary;
    if end: nat :| SelectedBefore(image, lba, end, v) {
      assert end != lba;
      assert SelectedBefore(image, lba + 1, end, v);
    }
    var next := lba + 1;
    if end: nat :| SelectedBefore(image, next, end, v) {
      assert SelectedBefore(image, lba, end, v);
    }
  }

  lemma SelectsHere(image: seq<byte>, lba: nat, v: Volume)
    requires !PassesOver(image, lba)
    ensures Selects(image, lba, v) <==>
              && DescriptorAt(image, lba) == Some(Terminator)
              && LastPrimary(image, 16, lba) == Some(v.primary)
              && LastSupplementary(image, 16, lba) == v.supplementary
  {
    hide DescriptorAt, LastPrimary, LastSupplementary;
    if DescriptorAt(image, lba) == Some(Terminator) {
      assert EndsAt(image, lba, lba);
      assert SelectedBefore(image, lba, lba, v) ==> Selects(image, lba, v);
    }
  }

  lemma {:induction false} ScanSelects(image: seq<byte>, lba: nat, v: Volume)
    requires lba >= 16
    ensures Scan(image, lba, LastPrimary(image, 16, lba), LastSupplementary(image, 16, lba)) == Ok(v)
        <==> Selects(image, lba, v)
    decreases |image| - lba * BLOCK
  {
    hide ParseDescriptor, Selects;
    if PassesOver(image, lba) {
      ScanSelects(image, lba + 1, v);
      SelectsNext(image, lba, v);
    } else {
      SelectsHere(image, lba, v);
    }
  }

  /**
   * Opening succeeds with a volume exactly when there is a terminator at or after block 16, every
   * block before the first one holds a descriptor with block size 2048 (if it has one), and the
   * volume is given by the last primary and the last supplementary descriptor among them.
   */
  lemma OpensIffSelected(image: seq<byte>, v: Volume)
    ensures Scan(image, 16, None, None) == Ok(v) <==> Selects(image, 16, v)
  {
    ScanSelects(image, 16, v);
  }

  /** Opening a volume reads each block from 16 up to the terminator once. */
  lemma {:induction false} DescriptorsReadOnce(image: seq<byte>, lba: nat, end: nat)
    requires EndsAt(image, lba, end)
    ensures ScanCost(image, lba) == end - lba + 1
    decreases end - lba
  {
    hide DescriptorAt;
    if lba < end {
      DescriptorsReadOnce(image, lba + 1, end);
    }
  }
}
