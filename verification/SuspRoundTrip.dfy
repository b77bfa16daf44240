/**
 Printing system use entries, and reading the printed bytes back.
 */
module SuspRoundTrip {
  import opened Base
  import opened Strings
  import opened Susp

  /** One extension as an `ER` entry spells it: identifier, and texts that the parser drops */
  datatype Reference = Reference(id: Text, description: Text, source: Text)

  /** The extension that the identifier stands for, when all three texts are valid and fit their lengths */
  function Registered(r: Reference): Option<Extension> {
    if ValidUtf8(r.id) && ValidUtf8(r.description) && ValidUtf8(r.source)
       && |r.id| < 0x100 && |r.description| < 0x100 && |r.source| < 0x100
    then KnownExtension(TrimEnd(r.id), 1) else None
  }

  function ExtensionOf(r: Reference): Extension {
    if Registered(r).Some? then Registered(r).value else RockRidge109
  }

  /** An entry as an image spells it: an `ER` entry has texts of its own, the others follow from their values. */
  datatype Written = Plain(entry: Entry) | References(references: seq<Reference>)

  function EntryOf(w: Written): Entry {
    match w
    case Plain(e) => e
    case References(rs) => Extensions(Map(ExtensionOf, rs))
  }

  function KindOf(e: Entry): Kind {
    match e
    case Continuation(_) => CE
    case Extensions(_) => ER
    case Indicator(_) => SP
    case Name(_, _) => NM
    case Attributes(_, _, _, _, _) => PX
    case Timestamps(_) => TF
    case RockRidge(_) => RR
    case Link(_, _) => SL
    case Child(_) => CL
    case Relocated => RE
    case Unknown(_, _, _) => Any
  }

  function PrintReference(r: Reference): seq<byte> {
    [(|r.id| % 0x100) as byte, (|r.description| % 0x100) as byte, (|r.source| % 0x100) as byte, 1]
    + r.id + r.description + r.source
  }

  function PrintStamp(s: Stamp): seq<byte> {
    s
  }

  function PrintLinkRecord(r: LinkRecord): seq<byte> {
    [r.flags, (|r.component| % 0x100) as byte] + r.component
  }

  function Present(ts: seq<Option<Stamp>>): seq<Stamp> {
    if ts == [] then []
    else (if ts[0].Some? then [ts[0].value] else []) + Present(ts[1..])
  }

  function Pow2(n: nat): nat {
    if n == 0 then 1 else 2 * Pow2(n - 1)
  }

  function FlagsOf(ts: seq<Option<Stamp>>): (f: nat)
    ensures f < Pow2(|ts|)
  {
    if ts == [] then 0
    else (if ts[0].Some? then 1 else 0) + 2 * FlagsOf(ts[1..])
  }

  function PrintData(e: Entry): seq<byte> {
    match e
    case Continuation(a) => PrintWords([a.block, a.offset, a.length])
    case Extensions(_) => []
    case Indicator(skip) => [0xBE, 0xEF, skip]
    case Name(flags, name) => [flags] + name
    case Attributes(mode, links, uid, gid, inode) =>
      PrintWords([mode, links, uid, gid] + if inode.Some? then [inode.value] else [])
    case Timestamps(ts) => [(FlagsOf(ts) % 0x100) as byte] + PrintAll(PrintStamp, Present(ts))
    case RockRidge(flags) => [flags]
    case Link(more, records) => [if more then 1 else 0] + PrintAll(PrintLinkRecord, records)
    case Child(lba) => Print32(lba)
    case Relocated => []
    case Unknown(_, _, data) => data
  }

  function AsField(w: Written): Field {
    match w
    case References(rs) => Field(Signature(ER), 1, PrintAll(PrintReference, rs))
    case Plain(Unknown(sig, version, data)) => Field(sig, version, data)
    case Plain(e) => Field(Signature(KindOf(e)), 1, PrintData(e))
  }

  /** Signature, length, version, data. */
  function PrintField(f: Field): seq<byte> {
    f.sig + [((4 + |f.data|) % 0x100) as byte, f.version] + f.data
  }

  function PrintEntry(w: Written): seq<byte> {
    PrintField(AsField(w))
  }

  predicate WellFormedRecord(r: LinkRecord) {
    r.flags < 64 && |r.component| < 0x100 && ValidUtf8(r.component)
  }

  /** The entries an image can carry: they fit a field, and their values fit their layout. */
  ghost predicate WellFormed(w: Written) {
    && 4 + |AsField(w).data| < 0x100
    && match w
       case Plain(e) => !e.Extensions? && ValuesFit(e)
       case References(rs) => rs != [] && forall r :: r in rs ==> Registered(r).Some?
  }

  ghost predicate ValuesFit(e: Entry) {
    match e
    case Name(flags, name) => NameFlags(flags) == flags && ValidUtf8(name) && TrimNuls(name) == name
    case Attributes(mode, _, _, _, _) => mode < 0x1_0000
    case Timestamps(ts) => |ts| == 7 && Present(ts) != [] && forall t :: t in Present(ts) ==> |t| == 7
    case Link(_, records) => records != [] && forall r :: r in records ==> WellFormedRecord(r)
    case Unknown(sig, _, _) => |sig| == 2 && forall k: Kind :: k != Any ==> Signature(k) != sig
    case _ => true
  }

  lemma ReferenceCutOut(r: Reference, t: seq<byte>)
    requires |r.id| < 0x100 && |r.description| < 0x100 && |r.source| < 0x100
    ensures ParseExtension(PrintReference(r) + t) == JudgeExtension(r.id, r.description, r.source, 1, t)
  {
    hide JudgeExtension;
    var s := PrintReference(r) + t;
    var a, b, c := 4 + |r.id|, 4 + |r.id| + |r.description|, 4 + |r.id| + |r.description| + |r.source|;
    assert s[4..a] == r.id && s[a..b] == r.description && s[b..c] == r.source && s[c..] == t;
  }

  lemma ReferenceInverts(r: Reference)
    requires Registered(r).Some?
    ensures Inverts(ParseExtension, PrintReference, ExtensionOf, r)
  {
    hide ValidUtf8, TrimEnd, ParseExtension, PrintReference, KnownExtension;
    forall t: seq<byte>
      ensures ParseExtension(PrintReference(r) + t) == Done(ExtensionOf(r), t)
    {
      ReferenceCutOut(r, t);
    }
    ReferencePrinted(r);
  }

  lemma ReferencePrinted(r: Reference)
    ensures |PrintReference(r)| > 0
  {
  }

  lemma StampInverts(x: Stamp)
    requires |x| == 7
    ensures Inverts(ParseStamp, PrintStamp, Same, x)
  {
    forall t: seq<byte>
      ensures ParseStamp(PrintStamp(x) + t) == Done(x, t)
    {
      assert (x + t)[..7] == x && (x + t)[7..] == t;
    }
  }

  lemma LinkRecordInverts(x: LinkRecord)
    requires WellFormedRecord(x)
    ensures Inverts(ParseLinkRecord, PrintLinkRecord, Same, x)
  {
    forall t: seq<byte>
      ensures ParseLinkRecord(PrintLinkRecord(x) + t) == Done(x, t)
    {
      var s, n := PrintLinkRecord(x) + t, 2 + |x.component|;
      assert s[2..n] == x.component && s[n..] == t;
    }
  }

  /** Stamps printed in flag order are handed back to the same flags. */
  lemma {:induction false} AssignInverts(ts: seq<Option<Stamp>>)
    ensures Assign(FlagsOf(ts), |ts|, Present(ts)) == ts
  {
    if ts != [] {
      AssignInverts(ts[1..]);
      assert [ts[0]] + ts[1..] == ts;
      assert FlagsOf(ts) / 2 == FlagsOf(ts[1..]);
      if ts[0].Some? {
        assert Present(ts)[1..] == Present(ts[1..]);
      } else {
        assert Present(ts) == Present(ts[1..]);
      }
    }
  }

  /** The alternative for the kind of the entry reads back its printed data. */
  ghost predicate ReadsBack(w: Written) {
    var r := ParseData(KindOf(EntryOf(w)), AsField(w));
    r.Done? && r.value == EntryOf(w)
  }

  lemma ContinuationReadsBack(a: Area)
    ensures ReadsBack(Plain(Continuation(a)))
  {
    hide Print32;
    var ws := [a.block, a.offset, a.length];
    WordReadsBack(ws, 0); WordReadsBack(ws, 1); WordReadsBack(ws, 2);
  }

  lemma AttributesReadBack(e: Entry)
    requires e.Attributes? && e.mode < 0x1_0000
    ensures ReadsBack(Plain(e))
  {
    hide Print32;
    var ws := [e.mode, e.links, e.uid, e.gid] + if e.inode.Some? then [e.inode.value] else [];
    WordReadsBack(ws, 0); WordReadsBack(ws, 1); WordReadsBack(ws, 2); WordReadsBack(ws, 3);
    if e.inode.Some? {
      WordReadsBack(ws, 4);
    }
  }

  lemma ChildReadsBack(lba: u32)
    ensures ReadsBack(Plain(Entry.Child(lba)))
  {
    assert Print32(lba)[0..8] == Print32(lba);
    Print32ReadsBack(Print32(lba), 0, lba);
  }

  lemma NothingIsNoReference()
    ensures ParseExtension([]).Fail?
  {
  }

  lemma ReferencesInvert(rs: seq<Reference>)
    requires rs != [] && forall r :: r in rs ==> Registered(r).Some?
    ensures Many1(ParseExtension, PrintAll(PrintReference, rs)) == Done(Map(ExtensionOf, rs), [])
  {
    hide Registered, ParseExtension, PrintReference, ExtensionOf, Inverts, Many, Map, Many1;
    forall r | r in rs { ReferenceInverts(r); }
    NothingIsNoReference();
    ManyInverts(ParseExtension, PrintReference, ExtensionOf, rs, []);
    assert PrintAll(PrintReference, rs) + [] == PrintAll(PrintReference, rs);
  }

  lemma ReferencesReadBack(rs: seq<Reference>)
    requires rs != [] && forall r :: r in rs ==> Registered(r).Some?
    ensures ReadsBack(References(rs))
  {
    hide Registered, PrintReference, ExtensionOf, Many1, Map;
    ReferencesInvert(rs);
  }

  lemma StampsInvert(stamps: seq<Stamp>)
    requires stamps != [] && forall t :: t in stamps ==> |t| == 7
    ensures Many1(ParseStamp, PrintAll(PrintStamp, stamps)) == Done(stamps, [])
  {
    forall t | t in stamps { StampInverts(t); }
    ManyInverts(ParseStamp, PrintStamp, Same, stamps, []);
    MapSame(stamps);
    assert PrintAll(PrintStamp, stamps) + [] == PrintAll(PrintStamp, stamps);
  }

  lemma TimestampsInvert(ts: seq<Option<Stamp>>)
    requires ValuesFit(Timestamps(ts))
    ensures ParseTimestamps(PrintData(Timestamps(ts))) == Done(Timestamps(ts), [])
  {
    var d := PrintData(Timestamps(ts));
    assert Pow2(7) == 128;
    assert d[0] as int == FlagsOf(ts) && d[1..] == PrintAll(PrintStamp, Present(ts));
    StampsInvert(Present(ts));
    AssignInverts(ts);
  }

  lemma TimestampsReadBack(ts: seq<Option<Stamp>>)
    requires ValuesFit(Timestamps(ts))
    ensures ReadsBack(Plain(Timestamps(ts)))
  {
    TimestampsInvert(ts);
  }

  lemma LinkRecordsInvert(rs: seq<LinkRecord>)
    requires rs != [] && forall r :: r in rs ==> WellFormedRecord(r)
    ensures Many1(ParseLinkRecord, PrintAll(PrintLinkRecord, rs)) == Done(rs, [])
  {
    hide WellFormedRecord;
    forall r | r in rs { LinkRecordInverts(r); }
    ManyInverts(ParseLinkRecord, PrintLinkRecord, Same, rs, []);
    MapSame(rs);
    assert PrintAll(PrintLinkRecord, rs) + [] == PrintAll(PrintLinkRecord, rs);
  }

  lemma LinkReadsBack(e: Entry)
    requires e.Link? && ValuesFit(e)
    ensures ReadsBack(Plain(e))
  {
    hide WellFormedRecord;
    LinkRecordsInvert(e.records);
    assert PrintData(e)[1..] == PrintAll(PrintLinkRecord, e.records);
  }

  lemma DataReadsBack(e: Entry)
    requires ValuesFit(e) && !e.Extensions?
    ensures ReadsBack(Plain(e))
  {
    match e
    case Continuation(a) => ContinuationReadsBack(a);
    case Attributes(_, _, _, _, _) => AttributesReadBack(e);
    case Child(lba) => ChildReadsBack(lba);
    case Timestamps(ts) => TimestampsReadBack(ts);
    case Link(_, _) => LinkReadsBack(e);
    case Name(_, name) => assert PrintData(e)[1..] == name;
    case _ =>
  }

  lemma {:induction false} AlternativesPick(ks: seq<Kind>, n: nat, i: seq<byte>)
    requires n < |ks| && forall m :: 0 <= m < n ==> !(Signature(ks[m]) <= i)
    requires ParseAs(ks[n], i).Done?
    ensures Alternatives(ks, i) == ParseAs(ks[n], i)
  {
    if n > 0 {
      AlternativesPick(ks[1..], n - 1, i);
    }
  }

  function PlaceOf(k: Kind): (n: nat)
    ensures n < |KINDS| && KINDS[n] == k
  {
    match k
    case SP => 0 case CE => 1 case ER => 2 case TF => 3 case NM => 4 case PX => 5
    case RR => 6 case CL => 7 case RE => 8 case SL => 9 case Any => 10
  }

  /** No two known signatures agree, so an earlier alternative cannot claim a printed entry. */
  lemma EarlierKindsPass(w: Written, m: nat)
    requires WellFormed(w) && m < PlaceOf(KindOf(EntryOf(w)))
    ensures |AsField(w).sig| == 2 && Signature(KINDS[m]) != AsField(w).sig && |Signature(KINDS[m])| == 2
  {
    hide Registered;
    var k := KINDS[m];
    assert k != Any && PlaceOf(k) == m;
  }

  lemma FieldCutOut(k: Kind, f: Field, t: seq<byte>)
    requires |f.sig| == 2 && Signature(k) <= f.sig && 4 + |f.data| < 0x100 && ParseData(k, f).Done?
    ensures ParseAs(k, PrintField(f) + t) == Done(ParseData(k, f).value, t)
  {
    hide ParseData;
    var i, n := PrintField(f) + t, 4 + |f.data|;
    assert i[..2] == f.sig && i[2] as int == n && i[3] == f.version && i[4..n] == f.data && i[n..] == t;
    assert Signature(k) <= i;
  }

  lemma WrittenReadsBack(w: Written)
    requires WellFormed(w)
    ensures ReadsBack(w) && |AsField(w).sig| == 2 && Signature(KindOf(EntryOf(w))) <= AsField(w).sig
  {
    hide Registered, ReadsBack, PrintData, AsField, Signature, KindOf, EntryOf;
    WrittenSignature(w);
    match w {
      case Plain(e) => DataReadsBack(e);
      case References(rs) => ReferencesReadBack(rs);
    }
  }

  lemma WrittenSignature(w: Written)
    requires WellFormed(w)
    ensures |AsField(w).sig| == 2 && Signature(KindOf(EntryOf(w))) <= AsField(w).sig
  {
    hide Registered, Map, PrintData, PrintAll, PrintReference, ValidUtf8, TrimNuls, NameFlags;
  }

  lemma FieldReadsBack(w: Written, t: seq<byte>)
    requires WellFormed(w)
    ensures ParseAs(KindOf(EntryOf(w)), PrintField(AsField(w)) + t) == Done(EntryOf(w), t)
  {
    hide Registered, ParseData, Map, ParseAs, EntryOf, AsField;
    WrittenReadsBack(w);
    FieldCutOut(KindOf(EntryOf(w)), AsField(w), t);
  }

  lemma PrintedSignature(f: Field, t: seq<byte>, sig: seq<byte>)
    requires |f.sig| == |sig| == 2 && sig != f.sig
    ensures !(sig <= PrintField(f) + t)
  {
    assert (PrintField(f) + t)[..2] == f.sig;
  }

  /** Every well-formed entry is read back from its field, whatever follows. */
  lemma EntryRoundTrip(w: Written)
    requires WellFormed(w)
    ensures Inverts(ParseEntry, PrintEntry, EntryOf, w)
  {
    forall t: seq<byte>
      ensures ParseEntry(PrintEntry(w) + t) == Done(EntryOf(w), t)
    {
      FieldReadsBack(w, t);
      var n := PlaceOf(KindOf(EntryOf(w)));
      forall m | 0 <= m < n
        ensures !(Signature(KINDS[m]) <= PrintEntry(w) + t)
      {
        EarlierKindsPass(w, m);
        PrintedSignature(AsField(w), t, Signature(KINDS[m]));
      }
      AlternativesPick(KINDS, n, PrintEntry(w) + t);
    }
  }

  /** The entries that a list of printed ones stands for */
  function EntriesOf(ws: seq<Written>): (es: seq<Entry>)
    ensures |es| == |ws| && forall k :: 0 <= k < |ws| ==> es[k] == EntryOf(ws[k])
  {
    Map(EntryOf, ws)
  }

  /**
   * Printing a non-empty list of entries and any amount of zero padding, and parsing that, gives
   * back the list and leaves the padding.
   */
  lemma SystemUseRoundTrip(ws: seq<Written>, padding: nat)
    requires ws != [] && forall w :: w in ws ==> WellFormed(w)
    ensures ParseSystemUse(PrintAll(PrintEntry, ws) + Zeros(padding)) == Done(EntriesOf(ws), Zeros(padding))
  {
    forall w | w in ws {
      EntryRoundTrip(w);
    }
    EntryReadsFields();
    assert ReadsField(ParseEntry, Zeros(padding));
    ManyInverts(ParseEntry, PrintEntry, EntryOf, ws, Zeros(padding));
  }
}
