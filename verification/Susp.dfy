/**
 System Use Sharing Protocol and Rock Ridge entries: the tag/length parser with its ordered
 alternatives, its printer, the round trip between them, and what the parser consumes.
 */
module Susp {
  import opened Base
  import opened Strings

  type Stamp = seq<byte>

  datatype Extension = RockRidge109 | RockRidge112

  datatype Area = Area(block: u32, offset: u32, length: u32)

  datatype LinkRecord = LinkRecord(flags: byte, component: Text)

  datatype Entry =
    | Continuation(area: Area)
    | Extensions(extensions: seq<Extension>)
    | Indicator(skip: byte)
    | Name(nameFlags: byte, name: Text)
    | Attributes(mode: u32, links: u32, uid: u32, gid: u32, inode: Option<u32>)
    | Timestamps(stamps: seq<Option<Stamp>>)
    | RockRidge(rrFlags: byte)
    | Link(more: bool, records: seq<LinkRecord>)
    | Child(lba: u32)
    | Relocated
    | Unknown(sig: seq<byte>, version: byte, data: seq<byte>)

  /** The alternatives of `system_use_entries`, in the order in which they are tried. */
  datatype Kind = SP | CE | ER | TF | NM | PX | RR | CL | RE | SL | Any

  const KINDS := [SP, CE, ER, TF, NM, PX, RR, CL, RE, SL, Any]

  function Signature(k: Kind): (s: seq<byte>) {
    match k
    case SP => [83, 80]
    case CE => [67, 69]
    case ER => [69, 82]
    case TF => [84, 70]
    case NM => [78, 77]
    case PX => [80, 88]
    case RR => [82, 82]
    case CL => [67, 76]
    case RE => [82, 69]
    case SL => [83, 76]
    case Any => []
  }

  // ---- field header ----

  datatype Field = Field(sig: seq<byte>, version: byte, data: seq<byte>)

  /** A field header starts `i`, and the whole field it announces is there. */
  predicate Fits(i: seq<byte>) {
    |i| >= 4 && 4 <= i[2] as int <= |i|
  }

  /** `parse_sig` once the signature is accepted; a length under 4 never yields a field. */
  function ParseField(i: seq<byte>): Parse<Field> {
    if Fits(i) then Done(Field(i[..2], i[3], i[4..i[2]]), i[i[2]..]) else Fail
  }

  // ---- field bodies ----

  /** `AlternateNameFlags::from_bits_truncate` */
  function NameFlags(f: byte): byte {
    f % 8 + f / 32 % 2 * 32
  }

  function ParseStamp(i: seq<byte>): Parse<Stamp> {
    if |i| >= 7 then Done(i[..7], i[7..]) else Fail
  }

  /** Hands the stamps out to the set flags, lowest bit first, as far as they reach. */
  function Assign(flags: nat, count: nat, stamps: seq<Stamp>): (r: seq<Option<Stamp>>)
    ensures |r| == count
    decreases count, flags
  {
    if count == 0 then []
    else if flags % 2 == 0 then [None] + Assign(flags / 2, count - 1, stamps)
    else if stamps == [] then [None] + Assign(flags / 2, count - 1, [])
    else [Some(stamps[0])] + Assign(flags / 2, count - 1, stamps[1..])
  }

  const RRIP_1991A: Text := [82, 82, 73, 80, 95, 49, 57, 57, 49, 65]
  const IEEE_P1282: Text := [73, 69, 69, 69, 95, 80, 49, 50, 56, 50]
  const IEEE_1282: Text := [73, 69, 69, 69, 95, 49, 50, 56, 50]

  function KnownExtension(id: Text, version: byte): Option<Extension> {
    if version != 1 then None
    else if id == RRIP_1991A then Some(RockRidge109)
    else if id == IEEE_P1282 || id == IEEE_1282 then Some(RockRidge112)
    else None
  }

  /** The outcome for an extension once its strings are cut out; an unknown one is `unimplemented!` */
  function JudgeExtension(id: Text, description: Text, source: Text, version: byte, rest: seq<byte>): Parse<Extension> {
    if !ValidUtf8(id) || !ValidUtf8(description) || !ValidUtf8(source) then Fail
    else
      match KnownExtension(TrimEnd(id), version)
      case None => Panicked
      case Some(x) => Done(x, rest)
  }

  /** `susp_extension` */
  function ParseExtension(i: seq<byte>): Parse<Extension> {
    if |i| < 4 then Fail
    else
      var a := 4 + i[0] as int;
      var b := a + i[1] as int;
      var c := b + i[2] as int;
      if |i| < c then Fail else JudgeExtension(i[4..a], i[a..b], i[b..c], i[3], i[c..])
  }

  /** `SymbolicLinkRecord::parse` */
  function ParseLinkRecord(i: seq<byte>): Parse<LinkRecord> {
    if |i| < 2 then Fail
    else
      var end := 2 + i[1] as int;
      if |i| < end || !ValidUtf8(i[2..end]) then Fail
      else Done(LinkRecord(i[0] % 64, i[2..end]), i[end..])
  }

  function ParseExtensions(d: seq<byte>): Parse<Entry> {
    var (xs, rest) :- Many1(ParseExtension, d);
    Done(Extensions(xs), rest)
  }

  function ParseTimestamps(d: seq<byte>): Parse<Entry> {
    if d == [] then Fail
    else
      var (stamps, rest) :- Many1(ParseStamp, d[1..]);
      Done(Timestamps(Assign(d[0] as int, 7, stamps)), rest)
  }

  function ParseLink(d: seq<byte>): Parse<Entry> {
    if d == [] || d[0] > 1 then Fail
    else
      var (records, rest) :- Many1(ParseLinkRecord, d[1..]);
      Done(Link(d[0] == 1, records), rest)
  }

  /** The `parse_data` implementations; the `assertions` feature turns bad versions and sizes into panics. */
  function ParseData(k: Kind, f: Field): Parse<Entry> {
    var d := f.data;
    if k.Any? then Done(Unknown(f.sig, f.version, d), d)
    else if f.version != 1 then Panicked
    else match k
      case SP =>
        if |d| >= 3 && d[0] == 0xBE && d[1] == 0xEF then Done(Indicator(d[2]), d[3..]) else Fail
      case CE =>
        if |d| != 24 then Panicked
        else Done(Continuation(Area(LE32(d, 0), LE32(d, 8), LE32(d, 16))), [])
      case ER =>
        ParseExtensions(d)
      case TF =>
        ParseTimestamps(d)
      case NM =>
        if d == [] || !ValidUtf8(d[1..]) then Fail
        else Done(Name(NameFlags(d[0]), TrimNuls(d[1..])), [])
      case PX =>
        if |d| != 32 && |d| != 40 then Panicked
        else Done(Attributes(LE32(d, 0) % 0x1_0000, LE32(d, 8), LE32(d, 16), LE32(d, 24),
                             if |d| == 40 then Some(LE32(d, 32)) else None), [])
      case RR =>
        if |d| != 1 then Panicked else Done(RockRidge(d[0]), [])
      case CL =>
        if |d| < 8 then Fail else Done(Child(LE32(d, 0)), d[8..])
      case RE =>
        if d != [] then Panicked else Done(Relocated, [])
      case SL =>
        ParseLink(d)
  }

  /** `ParseSusp::parse` for one alternative */
  function ParseAs(k: Kind, i: seq<byte>): Parse<Entry> {
    if !(Signature(k) <= i) then Fail
    else
      var (f, rest) :- ParseField(i);
      var (e, _) :- ParseData(k, f);
      Done(e, rest)
  }

  /** `alt`: the first alternative that does not report a recoverable error */
  function Alternatives(ks: seq<Kind>, i: seq<byte>): Parse<Entry> {
    if ks == [] then Fail
    else
      var r := ParseAs(ks[0], i);
      if r.Fail? then Alternatives(ks[1..], i) else r
  }

  function ParseEntry(i: seq<byte>): Parse<Entry> {
    Alternatives(KINDS, i)
  }

  /** `system_use_entries` */
  function ParseSystemUse(i: seq<byte>): Parse<seq<Entry>> {
    Many1(ParseEntry, i)
  }

  // ---- what the parser consumes ----

  lemma {:induction false} AlternativesShape(ks: seq<Kind>, i: seq<byte>)
    ensures Alternatives(ks, i).Done? ==> Fits(i) && Alternatives(ks, i).rest == i[i[2]..]
    ensures Any in ks && Fits(i) ==> !Alternatives(ks, i).Fail?
    ensures !Fits(i) ==> Alternatives(ks, i).Fail?
  {
    if ks != [] {
      AlternativesShape(ks[1..], i);
    }
  }

  lemma {:induction false} AlternativesLocal(ks: seq<Kind>, i: seq<byte>, j: seq<byte>)
    requires Fits(i) && Fits(j) && i[..i[2]] == j[..j[2]]
    ensures Alternatives(ks, i).Done? <==> Alternatives(ks, j).Done?
    ensures Alternatives(ks, i).Done? ==> Alternatives(ks, i).value == Alternatives(ks, j).value
  {
    if ks != [] {
      var n := |i[..i[2]]|;
      assert forall k :: 0 <= k < n ==> i[k] == i[..n][k] && j[k] == j[..n][k];
      assert i[2] == j[2];
      assert i[4..n] == j[4..n] && i[..2] == j[..2];
      assert |Signature(ks[0])| <= 2;
      AlternativesLocal(ks[1..], i, j);
    }
  }

  /**
   * `p` recognises an entry exactly where a field fits, takes exactly its recorded length, and
   * looks at nothing but that field.
   */
  ghost predicate ReadsField<T>(p: seq<byte> -> Parse<T>, i: seq<byte>) {
    && (p(i).Fail? <==> !Fits(i))
    && (p(i).Done? ==> p(i).rest == i[i[2]..] && p(i[..i[2]]) == Done(p(i).value, []))
  }

  ghost predicate ReadsFields<T>(p: seq<byte> -> Parse<T>) {
    forall i: seq<byte> :: ReadsField(p, i)
  }

  lemma EntryReadsFields()
    ensures ReadsFields(ParseEntry)
  {
    forall i: seq<byte>
      ensures ReadsField(ParseEntry, i)
    {
      AlternativesShape(KINDS, i);
      assert KINDS[10] == Any;
      if Alternatives(KINDS, i).Done? {
        var f := i[..i[2]];
        assert f[2] == i[2] && f[..f[2]] == f && f[f[2]..] == [];
        AlternativesLocal(KINDS, i, f);
        AlternativesShape(KINDS, f);
      }
    }
  }

  /** Cuts the input into the fields announced by their own length bytes. */
  function Fields(i: seq<byte>): (fs: seq<seq<byte>>)
    ensures forall f :: f in fs ==> Fits(f) && |f| == f[2] as int
    decreases |i|
  {
    if Fits(i) then
      var f := i[..i[2]];
      assert f[2] == i[2];
      [f] + Fields(i[i[2]..])
    else []
  }

  /** Each value is the parse of its own field. */
  ghost predicate ParsedFrom<T>(p: seq<byte> -> Parse<T>, xs: seq<T>, fs: seq<seq<byte>>) {
    && |xs| == |fs|
    && forall k :: 0 <= k < |xs| ==> p(fs[k]) == Done(xs[k], [])
  }

  /** The input is its fields and then `rest`, `rest` starts no field, and `xs` are the fields' values. */
  ghost predicate Tiled<T>(p: seq<byte> -> Parse<T>, i: seq<byte>, xs: seq<T>, rest: seq<byte>) {
    && Flatten(Fields(i)) + rest == i
    && !Fits(rest)
    && ParsedFrom(p, xs, Fields(i))
  }

  lemma TilesMore<T>(p: seq<byte> -> Parse<T>, i: seq<byte>, xs: seq<T>, end: seq<byte>)
    requires ReadsField(p, i) && p(i).Done? && Tiled(p, p(i).rest, xs, end)
    ensures Tiled(p, i, [p(i).value] + xs, end)
  {
    var f, rest := i[..i[2]], i[i[2]..];
    assert i == f + rest;
    assert Fields(i) == [f] + Fields(rest);
    assert Flatten(Fields(i)) + end == f + (Flatten(Fields(rest)) + end);
  }

  lemma {:induction false} ManyTiles<T>(p: seq<byte> -> Parse<T>, i: seq<byte>)
    requires ReadsFields(p)
    ensures !Many(p, i).Fail?
    ensures Many(p, i).Done? ==> Tiled(p, i, Many(p, i).value, Many(p, i).rest)
    decreases |i|
  {
    assert ReadsField(p, i);
    if p(i).Done? {
      var tail := Many(p, p(i).rest);
      ManyTiles(p, p(i).rest);
      if tail.Done? {
        TilesMore(p, i, tail.value, tail.rest);
      }
    }
  }

  /**
   * On any input: parsing fails exactly when no field fits at the start; otherwise the consumed
   * prefix is tiled by the fields, with one entry per field that depends on that field alone, and
   * parsing stops exactly at the first place where no field fits.
   */
  lemma SystemUseTiles(i: seq<byte>)
    ensures ParseSystemUse(i).Fail? <==> !Fits(i)
    ensures ParseSystemUse(i).Done? ==>
              Tiled(ParseEntry, i, ParseSystemUse(i).value, ParseSystemUse(i).rest)
  {
    EntryReadsFields();
    Many1Tiles(ParseEntry, i);
  }

  lemma Many1Tiles<T>(p: seq<byte> -> Parse<T>, i: seq<byte>)
    requires ReadsFields(p)
    ensures Many1(p, i).Fail? <==> !Fits(i)
    ensures Many1(p, i).Done? ==> Tiled(p, i, Many1(p, i).value, Many1(p, i).rest)
  {
    assert ReadsField(p, i);
    if p(i).Done? {
      var tail := Many(p, p(i).rest);
      ManyTiles(p, p(i).rest);
      if tail.Done? {
        TilesMore(p, i, tail.value, tail.rest);
      }
    }
  }
}
