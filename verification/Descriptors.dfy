/**
 Volume descriptors byte by byte (sections 8.4 and 8.5 of ECMA-119): which blocks are descriptors that a
 volume can be opened with, dates and texts included.
 */
module Descriptors {
  import opened Base
  import opened Strings
  import opened Susp
  import opened Record
  import opened BlockDevice
  import opened Volume

  /** "CD001" and version 1 after the type byte */
  predicate IsStandard(b: seq<byte>) {
    |b| == 2048 && b[1] == 67 && b[2] == 68 && b[3] == 48 && b[4] == 48 && b[5] == 49 && b[6] == 1
  }

  /** A date as it is mastered: 16 digits, or 16 NULs for none, and any zone */
  predicate HoldsDate(b: seq<byte>, at: nat) {
    && at + 17 <= |b|
    && ((forall k :: at <= k < at + 16 ==> 48 <= b[k] <= 57) || (forall k :: at <= k < at + 16 ==> b[k] == 0))
  }

  /** No escape sequences for ISO 9660; one of the three of Joliet, "%/@", "%/C" or "%/E", for UCS-2 */
  predicate Escapes(b: seq<byte>, enc: Encoding)
    requires |b| == 2048
  {
    match enc
    case Iso9660 => forall k :: 88 <= k < 120 ==> b[k] == 0
    case Ucs2 => b[88] == 0x25 && b[89] == 0x2F && b[90] in {0x40, 0x43, 0x45}
  }

  /** Texts in the encoding: ASCII, or big-endian units that are no surrogates */
  predicate HoldsTexts(b: seq<byte>, from: nat, until: nat, enc: Encoding)
    requires from <= until <= |b|
  {
    match enc
    case Iso9660 => forall k :: from <= k < until ==> b[k] < 0x80
    case Ucs2 => forall k :: from <= k < until && (k - from) % 2 == 0 ==> b[k] < 0xD8
  }

  /** A descriptor with this block size and root record, whose texts and dates are as they are mastered */
  ghost predicate IsMastered(b: seq<byte>, enc: Encoding, blockSize: u16, root: Raw) {
    && IsStandard(b) && Escapes(b, enc)
    && b[128] as int + 0x100 * b[129] as int == blockSize
    && root.Valid() && b[156..156 + root.Length()] == PrintRecord(root)
    && var at := 156 + root.Length();
       && HoldsTexts(b, 8, 72, enc) && HoldsTexts(b, at, at + 586, enc) && HoldsTexts(b, at + 586, at + 623, Iso9660)
       && HoldsDate(b, at + 623) && HoldsDate(b, at + 640) && HoldsDate(b, at + 657) && HoldsDate(b, at + 674)
  }

  lemma {:induction false} UnitsDecode(s: seq<byte>)
    requires |s| % 2 == 0 && forall k :: 0 <= k < |s| && k % 2 == 0 ==> s[k] < 0xD8
    ensures FromUtf16(s, true).Some?
    decreases |s|
  {
    hide Utf8Of;
    if s != [] {
      assert forall k :: 0 <= k < |s[2..]| ==> s[2..][k] == s[k + 2];
      UnitsDecode(s[2..]);
    }
  }

  lemma TextDecodes(b: seq<byte>, from: nat, until: nat, enc: Encoding)
    requires from <= until <= |b| && (until - from) % 2 == 0 && HoldsTexts(b, from, until, enc)
    ensures Decode(enc, b[from..until]).Ok?
  {
    hide FromUtf16, ValidUtf8, TrimEnd;
    var s := b[from..until];
    assert forall k :: 0 <= k < |s| ==> s[k] == b[from + k];
    match enc
    case Iso9660 => AsciiIsValid(s);
    case Ucs2 =>
      UnitsDecode(s);
      assert |s| >= 2 ==> s[..2][0] == s[0];
      assert |s| >= 3 ==> s[..3][0] == s[0];
  }

  lemma TextsWithin(b: seq<byte>, from: nat, from': nat, until': nat, until: nat, enc: Encoding)
    requires from <= from' <= until' <= until <= |b| && (from' - from) % 2 == 0 && HoldsTexts(b, from, until, enc)
    ensures HoldsTexts(b, from', until', enc)
  {
    if enc.Ucs2? {
      forall k | from' <= k < until' && (k - from') % 2 == 0
        ensures b[k] < 0xD8
      {
        assert (k - from) % 2 == 0;
      }
    }
  }

  lemma TextWithin(b: seq<byte>, at: nat, from: nat, until: nat, enc: Encoding)
    requires at + 586 <= |b| && HoldsTexts(b, at, at + 586, enc)
    requires from <= until <= 586 && from % 2 == 0 && until % 2 == 0
    ensures Decode(enc, b[at..][from..until]).Ok?
  {
    hide HoldsTexts, Decode;
    TextsWithin(b, at, at + from, at + until, at + 586, enc);
    TextDecodes(b, at + from, at + until, enc);
    assert b[at..][from..until] == b[at + from..at + until];
  }

  lemma DateHeld(b: seq<byte>, at: nat, k: nat)
    requires HoldsDate(b, at + k) && at <= |b|
    ensures at + k + 17 <= |b| && IsDate(b[at..][k..k + 17])
  {
    hide IsNumber;
    var s := b[at..][k..k + 17];
    assert forall j :: 0 <= j < 17 ==> s[j] == b[at + k + j];
    AllNumbers(s, 0, 4); AllNumbers(s, 4, 6); AllNumbers(s, 6, 8); AllNumbers(s, 8, 10);
    AllNumbers(s, 10, 12); AllNumbers(s, 12, 14); AllNumbers(s, 14, 16);
  }

  lemma AllNumbers(s: seq<byte>, from: nat, until: nat)
    requires |s| == 17 && from < until <= 16
    requires (forall k :: 0 <= k < 16 ==> 48 <= s[k] <= 57) || (forall k :: 0 <= k < 16 ==> s[k] == 0)
    ensures IsNumber(s[from..until])
  {
    var n := s[from..until];
    assert forall k :: 0 <= k < |n| ==> n[k] == s[from + k];
  }

  lemma TextsDecoded(b: seq<byte>, at: nat, enc: Encoding)
    requires |b| == 2048 && at + 692 <= 2048
    requires HoldsTexts(b, 8, 72, enc) && HoldsTexts(b, at, at + 586, enc) && HoldsTexts(b, at + 586, at + 623, Iso9660)
    ensures Decodes(enc, b, b[at..]) && ValidUtf8(b[at..][586..623])
  {
    hide HoldsTexts, Decode, ValidUtf8;
    TextsWithin(b, 8, 8, 40, 72, enc);
    TextDecodes(b, 8, 40, enc);
    TextsWithin(b, 8, 40, 72, 72, enc);
    TextDecodes(b, 40, 72, enc);
    TextWithin(b, at, 0, 128, enc); TextWithin(b, at, 128, 256, enc); TextWithin(b, at, 256, 384, enc);
    TextWithin(b, at, 384, 512, enc); TextWithin(b, at, 512, 550, enc); TextWithin(b, at, 550, 586, enc);
    AsciiText(b, at + 586, at + 623);
    assert b[at..][586..623] == b[at + 586..at + 623];
  }

  lemma AsciiText(b: seq<byte>, from: nat, until: nat)
    requires from <= until <= |b| && HoldsTexts(b, from, until, Iso9660)
    ensures ValidUtf8(b[from..until])
  {
    AsciiIsValid(b[from..until]);
  }

  /**
   * A descriptor of type 1 or 2 is read, with its block size, its root record and the root's name, if its
   * dates are digits or NULs and its texts are text.
   */
  lemma MasteredDescriptor(b: seq<byte>, enc: Encoding, blockSize: u16, root: Raw, rootId: Text)
    requires IsMastered(b, enc, blockSize, root) && b[0] in {1, 2}
    requires DecodeIdentifier(enc, root.id) == Ok(rootId) && !ParseSystemUse(root.use).Panicked?
    ensures var table := Table(blockSize, root.HeaderIn(enc), rootId);
            && ParseDescriptor(b).Done?
            && ParseDescriptor(b).value == if b[0] == 1 then Primary(table) else Supplementary(table)
  {
    hide ParseRecord, ValidUtf8, IsDate, PrintRecord, Decodes, EncodingOf, DecodeIdentifier, ParseSystemUse;
    hide HoldsDate, HoldsTexts;
    var at := 156 + root.Length();
    HeaderParsed(b, enc);
    RootReadsBack(b, enc, root, rootId);
    DateHeld(b, at, 623); DateHeld(b, at, 640); DateHeld(b, at, 657); DateHeld(b, at, 674);
    assert at + 692 <= 2048;
    TextsDecoded(b, at, enc);
  }

  lemma HeaderParsed(b: seq<byte>, enc: Encoding)
    requires IsStandard(b) && Escapes(b, enc)
    ensures b[1..7] == STANDARD && EncodingOf(b[88..120]) == Some(enc)
  {
    var field := b[88..120];
    assert forall k :: 0 <= k < 32 ==> field[k] == b[88 + k];
    if enc.Iso9660? {
      assert field == Zeros(32) && field[0] == 0;
    } else {
      assert field[..3] == [0x25, 0x2F, b[90]];
    }
  }

  // ---- printing ----

  /** 2023-01-01 12:00:00.00, in the zone of UTC */
  const DATE: seq<byte> := [50, 48, 50, 51, 48, 49, 48, 49, 49, 50, 48, 48, 48, 48, 48, 48, 0]

  /** No escape sequences, or those of Joliet level 3 */
  function EscapesFor(enc: Encoding): (s: seq<byte>)
    ensures |s| == 32
  {
    match enc
    case Iso9660 => Zeros(32)
    case Ucs2 => [0x25, 0x2F, 0x45] + Zeros(29)
  }

  /** A primary or supplementary descriptor without texts, with block size 2048 and four dates */
  function PrintDescriptor(kind: byte, enc: Encoding, root: Raw): (b: seq<byte>)
    requires root.Valid()
    ensures |b| == BLOCK
  {
    [kind, 67, 68, 48, 48, 49, 1] + Zeros(81) + EscapesFor(enc) + Zeros(8) + [0, 8, 8, 0] + Zeros(24)
    + PrintRecord(root) + Zeros(623) + (DATE + DATE + DATE + DATE) + Zeros(1201 - root.Length())
  }

  function PrintTerminator(): (b: seq<byte>)
    ensures |b| == BLOCK
  {
    [255, 67, 68, 48, 48, 49, 1] + Zeros(2041)
  }

  /** Where the parts of a descriptor are found again */
  lemma DescriptorLayout(b: seq<byte>, head: seq<byte>, escapes: seq<byte>, size: seq<byte>, root: seq<byte>,
                         dates: seq<byte>, more: seq<byte>)
    requires |head| == 7 && |escapes| == 32 && |size| == 4 && |dates| == 68
    requires b == head + Zeros(81) + escapes + Zeros(8) + size + Zeros(24) + root + Zeros(623) + dates + more
    ensures b[..7] == head && b[88..120] == escapes && b[128..132] == size && b[156..156 + |root|] == root
    ensures b[156 + |root| + 623..156 + |root| + 691] == dates
    ensures forall k :: 7 <= k < 88 || 156 + |root| <= k < 156 + |root| + 623 ==> b[k] == 0
  {
  }

  lemma DatePrinted(b: seq<byte>, at: nat)
    requires at + 17 <= |b| && b[at..at + 17] == DATE
    ensures HoldsDate(b, at)
  {
    forall k | at <= k < at + 16
      ensures 48 <= b[k] <= 57
    {
      assert b[k] == b[at..at + 17][k - at];
    }
  }

  lemma FourParts(p: seq<byte>, q: seq<byte>, r: seq<byte>, s: seq<byte>)
    requires |p| == |q| == |r| == |s| == 17
    ensures var all := p + q + r + s;
            all[0..17] == p && all[17..34] == q && all[34..51] == r && all[51..68] == s
  {
  }

  lemma Within(b: seq<byte>, at: nat, from: nat, n: nat)
    requires from + 17 <= n && at + n <= |b|
    ensures b[at..at + n][from..from + 17] == b[at + from..at + from + 17]
  {
    var s := b[at..at + n];
    var t, u := s[from..from + 17], b[at + from..at + from + 17];
    forall k | 0 <= k < 17
      ensures t[k] == u[k]
    {
      assert s[from + k] == b[at + from + k];
    }
  }

  lemma DatesPrinted(b: seq<byte>, at: nat)
    requires at + 68 <= |b| && b[at..at + 68] == DATE + DATE + DATE + DATE
    ensures HoldsDate(b, at) && HoldsDate(b, at + 17) && HoldsDate(b, at + 34) && HoldsDate(b, at + 51)
  {
    hide HoldsDate;
    FourParts(DATE, DATE, DATE, DATE);
    Within(b, at, 0, 68); Within(b, at, 17, 68); Within(b, at, 34, 68); Within(b, at, 51, 68);
    DatePrinted(b, at); DatePrinted(b, at + 17); DatePrinted(b, at + 34); DatePrinted(b, at + 51);
  }

  lemma PrintedIsMastered(kind: byte, enc: Encoding, root: Raw)
    requires root.Valid()
    ensures PrintDescriptor(kind, enc, root)[0] == kind && IsMastered(PrintDescriptor(kind, enc, root), enc, 2048, root)
  {
    hide PrintRecord, Zeros, EscapesFor;
    var b := PrintDescriptor(kind, enc, root);
    var at := 156 + root.Length();
    DescriptorLayout(b, [kind, 67, 68, 48, 48, 49, 1], EscapesFor(enc), [0, 8, 8, 0], PrintRecord(root),
                     DATE + DATE + DATE + DATE, Zeros(1201 - root.Length()));
    assert b[0] == b[..7][0] && b[1] == b[..7][1] && b[2] == b[..7][2] && b[3] == b[..7][3];
    assert b[4] == b[..7][4] && b[5] == b[..7][5] && b[6] == b[..7][6];
    assert b[128] == b[128..132][0] && b[129] == b[128..132][1];
    EscapesPrinted(b, enc);
    DatesPrinted(b, at + 623);
  }

  lemma EscapesPrinted(b: seq<byte>, enc: Encoding)
    requires |b| == 2048 && b[88..120] == EscapesFor(enc)
    ensures Escapes(b, enc)
  {
    var field := b[88..120];
    assert forall k :: 88 <= k < 120 ==> b[k] == field[k - 88];
    assert b[88] == field[0] && b[89] == field[1] && b[90] == field[2];
  }

  // ---- what is no such descriptor ----

  /** Where date `d` of a descriptor starts, from the length of its root record on */
  function DateAt(b: seq<byte>, d: nat): nat
    requires |b| == 2048
  {
    156 + b[156] as int + 623 + 17 * d
  }

  /** A text that is a number of an `i32`, or only NULs, holds nothing but digits, signs and NULs. */
  lemma NumberBytes(s: seq<byte>, k: nat)
    requires IsNumber(s) && k < |s|
    ensures s[k] == 0 || s[k] == 43 || s[k] == 45 || 48 <= s[k] <= 57
  {
    if k > 0 && s[0] in {43, 45} {
      assert s[1..][k - 1] == s[k];
    }
  }

  lemma DateBytes(s: seq<byte>, k: nat)
    requires |s| == 17 && IsDate(s) && k < 16
    ensures s[k] == 0 || s[k] == 43 || s[k] == 45 || 48 <= s[k] <= 57
  {
    hide IsNumber;
    if k < 4 { NumberBytes(s[..4], k); }
    else if k < 6 { NumberBytes(s[4..6], k - 4); }
    else if k < 8 { NumberBytes(s[6..8], k - 6); }
    else if k < 10 { NumberBytes(s[8..10], k - 8); }
    else if k < 12 { NumberBytes(s[10..12], k - 10); }
    else if k < 14 { NumberBytes(s[12..14], k - 12); }
    else { NumberBytes(s[14..16], k - 14); }
  }

  /** What the parts of a descriptor that is read are like, wherever its root record ends */
  lemma ParsedTable(b: seq<byte>)
    requires |b| == 2048 && ParseTable(b).Done?
    ensures var at := 156 + b[156] as int;
            && at + 692 <= 2048 && EncodingOf(b[88..120]).Some?
            && IsDate(b[at..][623..640]) && IsDate(b[at..][640..657]) && IsDate(b[at..][657..674])
            && IsDate(b[at..][674..691])
            && Decodes(EncodingOf(b[88..120]).value, b, b[at..]) && ValidUtf8(b[at..][586..623])
            && ParseTable(b).value.blockSize == LE16(b, 128)
  {
    hide ParseRecord, IsDate, Decodes, EncodingOf, ValidUtf8;
    ParsedLength(b[156..], EncodingOf(b[88..120]).value);
    assert b[156..][0] == b[156] && b[156..][b[156]..] == b[156 + b[156] as int..];
  }

  /**
   * A block is no primary or supplementary descriptor that is read if it does not start like one, has other
   * escape sequences, or a byte in a date that is no digit, sign or NUL.
   */
  lemma NotMastered(b: seq<byte>, d: nat, k: nat)
    requires |b| == 2048 && d < 4 && k < 16
    ensures !IsStandard(b) ==> ParseDescriptor(b).Fail?
    ensures b[0] in {1, 2} && !Escapes(b, Iso9660) && !Escapes(b, Ucs2) ==> ParseDescriptor(b).Fail?
    ensures b[0] in {1, 2} && DateAt(b, d) + 17 <= 2048
            && (var c := b[DateAt(b, d) + k]; c != 0 && c != 43 && c != 45 && !(48 <= c <= 57)) ==>
              !ParseDescriptor(b).Done?
  {
    hide ParseTable, IsDate, Decodes, EncodingOf;
    if b[1..7] == STANDARD {
      assert forall j :: 0 <= j < 6 ==> b[1 + j] == STANDARD[j];
    }
    if !Escapes(b, Iso9660) && !Escapes(b, Ucs2) {
      EscapesNeeded(b);
    }
    if b[0] in {1, 2} && ParseTable(b).Done? {
      ParsedTable(b);
      var at := 156 + b[156] as int;
      var s := b[at..][623 + 17 * d..640 + 17 * d];
      assert IsDate(s);
      DateBytes(s, k);
      assert s[k] == b[DateAt(b, d) + k];
    }
  }

  lemma EscapesNeeded(b: seq<byte>)
    requires |b| == 2048 && !Escapes(b, Iso9660) && !Escapes(b, Ucs2)
    ensures ParseTable(b).Fail?
  {
    var field := b[88..120];
    assert forall k :: 88 <= k < 120 ==> b[k] == field[k - 88];
    assert b[88] == field[0] && b[89] == field[1] && b[90] == field[2];
  }

  /** Where the texts that are decoded lie, when the root record ends at `at` */
  function TextPlace(at: nat, k: nat): (place: (nat, nat))
    requires k < 8
  {
    match k
    case 0 => (8, 40)
    case 1 => (40, 72)
    case 2 => (at, at + 128)
    case 3 => (at + 128, at + 256)
    case 4 => (at + 256, at + 384)
    case 5 => (at + 384, at + 512)
    case 6 => (at + 512, at + 550)
    case _ => (at + 550, at + 586)
  }

  /** A descriptor whose fixed parts, root record and dates are as they should be */
  ghost predicate AllButTexts(b: seq<byte>, enc: Encoding) {
    && IsStandard(b) && b[0] in {1, 2} && Escapes(b, enc) && ParseRecord(b[156..], enc).Done?
    && var at := 156 + b[156] as int;
       && at + 692 <= 2048
       && HoldsDate(b, at + 623) && HoldsDate(b, at + 640) && HoldsDate(b, at + 657) && HoldsDate(b, at + 674)
  }

  /** What becomes of such a block */
  lemma TextsDecide(b: seq<byte>, enc: Encoding)
    requires AllButTexts(b, enc)
    ensures var at := 156 + b[156] as int;
            && (!Decodes(enc, b, b[at..]) ==>
                  if enc.Iso9660? then ParseDescriptor(b).Fail? else ParseDescriptor(b).Panicked?)
            && (Decodes(enc, b, b[at..]) ==> (ParseDescriptor(b).Fail? <==> !ValidUtf8(b[at..][586..623])))
  {
    hide ParseRecord, IsDate, Decodes, EncodingOf, ValidUtf8, HoldsDate;
    var at := 156 + b[156] as int;
    HeaderParsed(b, enc);
    ParsedLength(b[156..], enc);
    assert b[156..][0] == b[156] && b[156..][b[156]..] == b[at..];
    DateHeld(b, at, 623); DateHeld(b, at, 640); DateHeld(b, at, 657); DateHeld(b, at, 674);
  }

  /**
   * A block that is a primary or supplementary descriptor but for one of its texts is not read: an error in ISO 9660
   * encoding, a panic in UCS-2, and for the last text, which is ISO 9660 in both, an error.
   */
  lemma TextsNeeded(b: seq<byte>, enc: Encoding, k: nat)
    requires AllButTexts(b, enc) && k < 8
    ensures var at := 156 + b[156] as int;
            var (from, until) := TextPlace(at, k);
            Decode(enc, b[from..until]).Err? ==>
              if enc.Iso9660? then ParseDescriptor(b).Fail? else ParseDescriptor(b).Panicked?
    ensures var at := 156 + b[156] as int;
            (forall j {:trigger TextPlace(at, j)} :: 0 <= j < 8 ==>
               Decode(enc, b[TextPlace(at, j).0..TextPlace(at, j).1]).Ok?) ==>
              (ParseDescriptor(b).Fail? <==> !ValidUtf8(b[at + 586..at + 623]))
  {
    hide ParseDescriptor, Decode, ValidUtf8, HoldsDate, ParseRecord;
    TextsDecide(b, enc);
    var at := 156 + b[156] as int;
    PlacesWithin(b, at);
    if forall j {:trigger TextPlace(at, j)} :: 0 <= j < 8 ==>
      Decode(enc, b[TextPlace(at, j).0..TextPlace(at, j).1]).Ok?
    {
      assert TextPlace(at, 0) == (8, 40) && TextPlace(at, 1) == (40, 72) && TextPlace(at, 2) == (at, at + 128);
      assert TextPlace(at, 3) == (at + 128, at + 256) && TextPlace(at, 4) == (at + 256, at + 384);
      assert TextPlace(at, 5) == (at + 384, at + 512) && TextPlace(at, 6) == (at + 512, at + 550);
      assert TextPlace(at, 7) == (at + 550, at + 586);
    }
  }

  lemma PlacesWithin(b: seq<byte>, at: nat)
    requires |b| == 2048 && at + 692 <= 2048
    ensures b[at..][..128] == b[at..at + 128] && b[at..][128..256] == b[at + 128..at + 256]
    ensures b[at..][256..384] == b[at + 256..at + 384] && b[at..][384..512] == b[at + 384..at + 512]
    ensures b[at..][512..550] == b[at + 512..at + 550] && b[at..][550..586] == b[at + 550..at + 586]
    ensures b[at..][586..623] == b[at + 586..at + 623]
  {
  }

  // ---- opening volumes ----

  /** The block holds a descriptor of that type. */
  ghost predicate HoldsTable(image: seq<byte>, lba: nat, kind: byte, enc: Encoding, blockSize: u16, root: Raw) {
    && BlockAt(image, lba).Some? && IsMastered(BlockAt(image, lba).value, enc, blockSize, root)
    && BlockAt(image, lba).value[0] == kind && !ParseSystemUse(root.use).Panicked?
  }

  ghost predicate HoldsTerminator(image: seq<byte>, lba: nat) {
    BlockAt(image, lba).Some? && IsStandard(BlockAt(image, lba).value) && BlockAt(image, lba).value[0] == 255
  }

  lemma TableHeld(image: seq<byte>, lba: nat, kind: byte, enc: Encoding, blockSize: u16, root: Raw, rootId: Text)
    requires HoldsTable(image, lba, kind, enc, blockSize, root) && kind in {1, 2}
    requires DecodeIdentifier(enc, root.id) == Ok(rootId)
    ensures root.Valid()
    ensures var table := Table(blockSize, root.HeaderIn(enc), rootId);
            DescriptorAt(image, lba) == Some(if kind == 1 then Primary(table) else Supplementary(table))
  {
    hide ParseDescriptor, HoldsTexts, HoldsDate, Escapes;
    MasteredDescriptor(BlockAt(image, lba).value, enc, blockSize, root, rootId);
  }

  lemma TerminatorHeld(image: seq<byte>, lba: nat)
    requires HoldsTerminator(image, lba)
    ensures DescriptorAt(image, lba) == Some(Terminator)
  {
    hide ParseTable;
    var b := BlockAt(image, lba).value;
    assert b[1..7] == STANDARD;
  }

  /** The scan at a block whose descriptor is known */
  lemma ScanAt(image: seq<byte>, lba: nat, primary: Option<Table>, supplementary: Option<Table>)
    requires DescriptorAt(image, lba).Some?
    ensures Scan(image, lba, primary, supplementary) ==
              match DescriptorAt(image, lba).value
              case Primary(t) =>
                if t.blockSize == 2048 then Scan(image, lba + 1, Some(t), supplementary) else Err(InvalidFs)
              case Supplementary(t) =>
                if t.blockSize == 2048 then Scan(image, lba + 1, primary, Some(t)) else Err(InvalidFs)
              case Terminator => if primary.None? then Err(InvalidFs) else Ok(Volume(primary.value, supplementary))
              case _ => Scan(image, lba + 1, primary, supplementary)
  {
    hide ParseDescriptor, BlockAt;
  }

  /**
   * An image with a mastered primary descriptor in block 16 and a terminator after it opens, with that root;
   * with a supplementary one between them it opens with both roots. With another block size than 2048 in
   * either it does not.
   */
  lemma MasteredVolumeOpens(image: seq<byte>, size: u16, root: Raw, rootId: Text,
                            enc: Encoding, size': u16, root': Raw, rootId': Text)
    requires HoldsTable(image, 16, 1, Iso9660, size, root) && DecodeIdentifier(Iso9660, root.id) == Ok(rootId)
    requires DecodeIdentifier(enc, root'.id) == Ok(rootId')
    ensures size == 2048 && HoldsTerminator(image, 17) ==>
              Scan(image, 16, None, None) == Ok(Volume(Table(size, root.HeaderIn(Iso9660), rootId), None))
    ensures size == 2048 && HoldsTable(image, 17, 2, enc, size', root') && HoldsTerminator(image, 18) ==>
              Scan(image, 16, None, None) ==
                if size' == 2048 then
                  Ok(Volume(Table(size, root.HeaderIn(Iso9660), rootId),
                            Some(Table(size', root'.HeaderIn(enc), rootId'))))
                else Err(InvalidFs)
    ensures size != 2048 ==> Scan(image, 16, None, None) == Err(InvalidFs)
  {
    hide HoldsTable, HoldsTerminator, DescriptorAt, Scan, DecodeIdentifier;
    TableHeld(image, 16, 1, Iso9660, size, root, rootId);
    ScanAt(image, 16, None, None);
    var p := Some(DescriptorAt(image, 16).value.table);
    if HoldsTerminator(image, 17) {
      TerminatorHeld(image, 17);
      ScanAt(image, 17, p, None);
    }
    if HoldsTable(image, 17, 2, enc, size', root') && HoldsTerminator(image, 18) {
      TableHeld(image, 17, 2, enc, size', root', rootId');
      TerminatorHeld(image, 18);
      ScanAt(image, 17, p, None);
      ScanAt(image, 18, p, Some(DescriptorAt(image, 17).value.table));
    }
  }
}
