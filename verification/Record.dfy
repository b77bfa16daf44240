/**
 Directory records (section 9.1 of ECMA-119): parser, printer and the round trip between them.
 */
module Record {
  import opened Base
  import opened Strings
  import opened Susp

  datatype Header = Header(
    length: byte,
    xattrLength: byte,
    location: u32,
    size: u32,
    time: Stamp,
    flags: byte,
    volumeSequence: u16,
    encoding: Encoding)
  {
    predicate IsDirectory() {
      Bit(flags as int, 2)
    }

    predicate IsAssociated() {
      Bit(flags as int, 4)
    }
  }

  /** What `directory_entry` returns: header, identifier and the parsed system use area. */
  datatype Parsed = Parsed(header: Header, identifier: Text, systemUse: Option<seq<Entry>>)

  /** `FileFlags::from_bits_truncate`: bits 5 and 6 are dropped. */
  function FileFlags(f: byte): byte {
    f % 32 + f / 128 * 128
  }

  /** The one-byte identifiers 0 and 1 stand for the directory itself and its parent. */
  function DecodeIdentifier(enc: Encoding, id: seq<byte>): Result<Text> {
    if id == [0] || id == [1] then Ok(id) else Decode(enc, id)
  }

  /** The pad byte that makes the system use area start at an even offset */
  function Padding(idLength: nat): nat {
    if idLength % 2 == 0 then 1 else 0
  }

  function HeaderOf(i: seq<byte>, enc: Encoding): Header
    requires |i| >= 33
  {
    Header(i[0], i[1], LE32(i, 2), LE32(i, 10), i[18..25], FileFlags(i[25]), LE16(i, 28), enc)
  }

  /** The record once its parts are cut out: `opt(system_use_entries)` never rejects, but may panic. */
  function Assemble(header: Header, id: seq<byte>, use: seq<byte>, rest: seq<byte>): Parse<Parsed> {
    match DecodeIdentifier(header.encoding, id)
    case Err(Panic) => Panicked
    case Err(_) => Fail
    case Ok(name) =>
      match ParseSystemUse(use)
      case Panicked => Panicked
      case Fail => Done(Parsed(header, name, None), rest)
      case Done(es, _) => Done(Parsed(header, name, Some(es)), rest)
  }

  /**
   * `directory_entry`. Non-zero interleaving fields are panics (the `assertions` feature); a record
   * length that does not reach the system use area makes the remainder wrap, which `take` rejects.
   */
  function ParseRecord(i: seq<byte>, enc: Encoding): Parse<Parsed> {
    if |i| < 32 then Fail
    else if i[26] != 0 || i[27] != 0 then Panicked
    else if |i| < 33 then Fail
    else
      var n := i[32] as int;
      var end, length := 33 + n + Padding(n), i[0] as int;
      if |i| < 33 + n then Fail
      else if DecodeIdentifier(enc, i[33..33 + n]) == Err(Panic) then Panicked
      else if |i| < end || length < end || |i| < length then Fail
      else Assemble(HeaderOf(i, enc), i[33..33 + n], i[end..length], i[length..])
  }

  /** A record that parses is at least 34 bytes long and is consumed to exactly its length. */
  lemma ParsedLength(i: seq<byte>, enc: Encoding)
    ensures ParseRecord(i, enc).Done? ==>
              && 34 <= ParseRecord(i, enc).value.header.length as int <= |i|
              && ParseRecord(i, enc).value.header.length == i[0]
              && ParseRecord(i, enc).rest == i[i[0]..]
              && ParseRecord(i, enc).value.header.encoding == enc
  {
    hide DecodeIdentifier, ParseSystemUse;
  }

  /**
   * Interleaving makes the reader panic. A record is not read if it is shorter than its fixed part, or if its
   * length does not cover its identifier and the pad byte.
   */
  lemma RefusedRecord(i: seq<byte>, enc: Encoding)
    ensures |i| >= 32 && (i[26] != 0 || i[27] != 0) ==> ParseRecord(i, enc).Panicked?
    ensures |i| < 32 || (|i| == 32 && i[26] == 0 && i[27] == 0) ==> ParseRecord(i, enc).Fail?
    ensures |i| >= 33 && (i[0] as int < 33 + i[32] as int + (1 - i[32] as int % 2) || i[0] as int > |i|) ==>
              !ParseRecord(i, enc).Done?
  {
    hide DecodeIdentifier, ParseSystemUse;
  }

  // ---- printing ----

  datatype Raw = Raw(
    xattrLength: byte,
    location: u32,
    size: u32,
    time: Stamp,
    flags: byte,
    volumeSequence: u16,
    id: seq<byte>,
    use: seq<byte>)
  {
    function Length(): nat {
      33 + |id| + Padding(|id|) + |use|
    }

    /** The record fits its one-byte length. */
    predicate Valid() {
      |time| == 7 && Length() < 0x100
    }

    function HeaderIn(enc: Encoding): Header
      requires Valid()
    {
      Header(Length() as byte, xattrLength, location, size, time, FileFlags(flags), volumeSequence, enc)
    }
  }

  function PrintFixed(r: Raw): (s: seq<byte>)
    requires r.Valid()
    ensures |s| == 33
  {
    [r.Length() as byte, r.xattrLength] + Print32(r.location) + Print32(r.size) + r.time
    + [r.flags, 0, 0] + Print16(r.volumeSequence) + [|r.id| as byte]
  }

  /** Where the parts of the fixed layout are found again. */
  lemma FixedLayout(i: seq<byte>, head: seq<byte>, location: seq<byte>, size: seq<byte>, time: seq<byte>,
                    flags: seq<byte>, volume: seq<byte>, more: seq<byte>)
    requires |head| == 2 && |location| == |size| == 8 && |time| == 7 && |flags| == 3 && |volume| == 4
    requires i == head + location + size + time + flags + volume + more
    ensures i[..2] == head && i[2..10] == location && i[10..18] == size && i[18..25] == time
    ensures i[25..28] == flags && i[28..32] == volume && i[32..] == more
  {
  }

  function PrintRecord(r: Raw): (s: seq<byte>)
    requires r.Valid()
    ensures |s| == r.Length() && s[0] as int == r.Length()
  {
    PrintFixed(r) + r.id + Zeros(Padding(|r.id|)) + r.use
  }

  lemma HeaderReadsBack(r: Raw, enc: Encoding, more: seq<byte>)
    requires r.Valid()
    ensures var i := PrintFixed(r) + more;
            HeaderOf(i, enc) == r.HeaderIn(enc) && i[26] == 0 && i[27] == 0 && i[32] as int == |r.id|
  {
    var i := PrintFixed(r) + more;
    var head, flags := [r.Length() as byte, r.xattrLength], [r.flags, 0, 0];
    FixedLayout(i, head, Print32(r.location), Print32(r.size), r.time, flags, Print16(r.volumeSequence),
                [|r.id| as byte] + more);
    assert i[0] == i[..2][0] && i[1] == i[..2][1] && i[32] == i[32..][0];
    assert i[25] == i[25..28][0] && i[26] == i[25..28][1] && i[27] == i[25..28][2];
    Print32ReadsBack(i, 2, r.location);
    Print32ReadsBack(i, 10, r.size);
    Print16ReadsBack(i, 28, r.volumeSequence);
  }

  /**
   * Every printed record is read back, whatever follows it: all header values, the identifier
   * bytes handed to the decoder and the system use bytes handed to the entry parser, with
   * exactly `length` bytes consumed.
   */
  lemma RecordRoundTrip(r: Raw, enc: Encoding, tail: seq<byte>)
    requires r.Valid()
    ensures ParseRecord(PrintRecord(r) + tail, enc) == Assemble(r.HeaderIn(enc), r.id, r.use, tail)
  {
    var i, n := PrintRecord(r) + tail, |r.id|;
    var more := r.id + Zeros(Padding(n)) + r.use + tail;
    HeaderReadsBack(r, enc, more);
    assert i == PrintFixed(r) + more;
    var end, length := 33 + n + Padding(n), r.Length();
    assert i[33..33 + n] == r.id;
    assert i[end..length] == r.use && i[length..] == tail;
  }

  /** The system use area starts at an even offset for every identifier length. */
  lemma SystemUseIsEven(r: Raw)
    requires r.Valid()
    ensures (r.Length() - |r.use|) % 2 == 0
    ensures PrintRecord(r)[r.Length() - |r.use|..] == r.use
  {
  }
}
