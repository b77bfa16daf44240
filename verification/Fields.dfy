/**
 System use fields byte by byte: how each kind of entry is told from the others, and what becomes of
 fields that are not as their kind demands.
 */
module Fields {
  import opened Base
  import opened Strings
  import opened Susp
  import opened SuspRoundTrip
  import opened RockRidge

  /** One whole field, as its length byte says */
  predicate IsField(f: seq<byte>) {
    |f| >= 4 && f[2] as int == |f|
  }

  // ---- the first bytes of printed entries ----

  /** Two letters, the length, and version 1 start the field of every entry of a known kind. */
  lemma FieldStarts(w: Written)
    requires WellFormed(w) && !EntryOf(w).Unknown?
    ensures IsField(PrintEntry(w)) && PrintEntry(w)[3] == 1
    ensures PrintEntry(w)[..2] ==
              match EntryOf(w)
              case Continuation(_) => [67, 69]
              case Extensions(_) => [69, 82]
              case Indicator(_) => [83, 80]
              case Name(_, _) => [78, 77]
              case Attributes(_, _, _, _, _) => [80, 88]
              case Timestamps(_) => [84, 70]
              case RockRidge(_) => [82, 82]
              case Link(_, _) => [83, 76]
              case Child(_) => [67, 76]
              case Relocated => [82, 69]
              case Unknown(_, _, _) => []
  {
    hide Registered, PrintData, PrintAll, ValuesFit, Map;
  }

  // ---- fields of any kind ----

  lemma OtherKindsFail(f: seq<byte>, k: Kind)
    requires IsField(f) && Signature(k) != f[..2] && k != Any
    ensures ParseAs(k, f).Fail?
  {
    assert |Signature(k)| == 2;
  }

  /** A field is read as its own kind, or else, if that does not accept it, as an unknown entry. */
  lemma OwnKindOrUnknown(f: seq<byte>, k: Kind)
    requires IsField(f) && k != Any && Signature(k) == f[..2]
    ensures ParseEntry(f) == if ParseAs(k, f).Fail? then Done(Unknown(f[..2], f[3], f[4..]), []) else ParseAs(k, f)
  {
    hide ParseAs, ParseData;
    var n := PlaceOf(k);
    forall m | 0 <= m < 10 && m != n
      ensures ParseAs(KINDS[m], f).Fail?
    {
      assert KINDS[m] != Any && KINDS[m] != k && Signature(KINDS[m]) != Signature(k) by { DifferentSignatures(m, n); }
      OtherKindsFail(f, KINDS[m]);
    }
    AlternativesDrop(KINDS, n, f);
    assert KINDS[n..][0] == k;
    if ParseAs(k, f).Fail? {
      LeftToAny(f);
    }
  }

  lemma DifferentSignatures(m: nat, n: nat)
    requires m < 10 && n < 10 && m != n
    ensures KINDS[m] != Any && KINDS[m] != KINDS[n] && Signature(KINDS[m]) != Signature(KINDS[n])
  {
  }

  lemma LeftToAny(f: seq<byte>)
    requires IsField(f) && forall m :: 0 <= m < 10 ==> ParseAs(KINDS[m], f).Fail?
    ensures ParseEntry(f) == Done(Unknown(f[..2], f[3], f[4..]), [])
  {
    AlternativesDrop(KINDS, 10, f);
    assert KINDS[10..] == [Any];
    assert f[4..f[2]] == f[4..] && f[f[2]..] == [];
  }

  /** The signatures of the known kinds: CE, CL, ER, NM, PX, RE, RR, SL, SP and TF */
  const KNOWN: seq<seq<byte>> := [
    [67, 69], [67, 76], [69, 82], [78, 77], [80, 88], [82, 69], [82, 82], [83, 76], [83, 80], [84, 70]]

  lemma KnownKind(f: seq<byte>) returns (k: Kind)
    requires IsField(f) && f[..2] in KNOWN
    ensures k != Any && Signature(k) == f[..2]
  {
    var n :| 0 <= n < |KNOWN| && KNOWN[n] == f[..2];
    k := [CE, CL, ER, NM, PX, RE, RR, SL, SP, TF][n];
  }

  /** A field with another signature is passed over as an unknown entry, whatever it holds. */
  lemma UnknownSignature(f: seq<byte>)
    requires IsField(f) && f[..2] !in KNOWN
    ensures ParseEntry(f) == Done(Unknown(f[..2], f[3], f[4..]), [])
  {
    hide ParseEntry, ParseAs;
    forall m | 0 <= m < 10
      ensures ParseAs(KINDS[m], f).Fail?
    {
      assert Signature(KINDS[m]) in KNOWN && KINDS[m] != Any by { SignatureIsKnown(m); }
      OtherKindsFail(f, KINDS[m]);
    }
    LeftToAny(f);
  }

  lemma SignatureIsKnown(m: nat)
    requires m < 10
    ensures Signature(KINDS[m]) in KNOWN && KINDS[m] != Any
  {
    var places := [8, 0, 2, 9, 3, 4, 6, 1, 5, 7];
    assert KNOWN[places[m]] == Signature(KINDS[m]);
  }

  /** A known kind in another version than 1 makes the reader panic. */
  lemma OtherVersionPanics(f: seq<byte>)
    requires IsField(f) && f[..2] in KNOWN && f[3] != 1
    ensures ParseEntry(f).Panicked?
  {
    var k := KnownKind(f);
    OwnKindOrUnknown(f, k);
  }

  /**
   * Which sizes of data make the reader panic: for `CE` all but 24 bytes, for `PX` all but 32 and 40, for `RR`
   * all but one, and for `RE` all but none. Other fields that are too short, an `SL` field with flags
   * beside CONTINUE and an `SP` field without its check bytes are passed over as unknown entries.
   */
  lemma MisshapenFields(f: seq<byte>)
    requires IsField(f) && f[3] == 1
    ensures f[..2] == [67, 69] ==> (ParseEntry(f).Panicked? <==> |f| != 28)
    ensures f[..2] == [80, 88] ==> (ParseEntry(f).Panicked? <==> |f| != 36 && |f| != 44)
    ensures f[..2] == [82, 82] ==> (ParseEntry(f).Panicked? <==> |f| != 5)
    ensures f[..2] == [82, 69] ==> (ParseEntry(f).Panicked? <==> |f| != 4)
    ensures var passed := Done(Unknown(f[..2], 1, f[4..]), []);
            && (f[..2] == [67, 76] ==> (ParseEntry(f) == passed <==> |f| < 12))
            && (f[..2] == [78, 77] ==> (ParseEntry(f) == passed <==> |f| < 5 || !ValidUtf8(f[5..])))
            && (f[..2] == [83, 80] ==> (ParseEntry(f) == passed <==> |f| < 7 || f[4] != 0xBE || f[5] != 0xEF))
            && (f[..2] == [83, 76] && (|f| < 5 || f[4] > 1) ==> ParseEntry(f) == passed)
            && (f[..2] == [84, 70] ==> (ParseEntry(f) == passed <==> |f| < 12))
  {
    hide ParseEntry, ParseAs, ParseData;
    if f[..2] in KNOWN {
      var k := KnownKind(f);
      OwnKindOrUnknown(f, k);
      assert f[4..f[2]] == f[4..] && f[f[2]..] == [];
      MisshapenData(f, k);
    }
    assert KNOWN[0] == [67, 69] && KNOWN[1] == [67, 76] && KNOWN[3] == [78, 77] && KNOWN[4] == [80, 88];
    assert KNOWN[5] == [82, 69] && KNOWN[6] == [82, 82] && KNOWN[7] == [83, 76] && KNOWN[8] == [83, 80];
    assert KNOWN[9] == [84, 70];
  }

  lemma MisshapenData(f: seq<byte>, k: Kind)
    requires IsField(f) && f[3] == 1 && k != Any && Signature(k) == f[..2]
    ensures ParseAs(k, f).Done? ==> !ParseAs(k, f).value.Unknown?
    ensures k == CE ==> if |f| != 28 then ParseAs(k, f).Panicked? else ParseAs(k, f).Done?
    ensures k == PX ==> if |f| != 36 && |f| != 44 then ParseAs(k, f).Panicked? else ParseAs(k, f).Done?
    ensures k == RR ==> if |f| != 5 then ParseAs(k, f).Panicked? else ParseAs(k, f).Done?
    ensures k == RE ==> if |f| != 4 then ParseAs(k, f).Panicked? else ParseAs(k, f).Done?
    ensures k == CL ==> (ParseAs(k, f).Fail? <==> |f| < 12)
    ensures k == NM ==> (ParseAs(k, f).Fail? <==> |f| < 5 || !ValidUtf8(f[5..]))
    ensures k == SP ==> (ParseAs(k, f).Fail? <==> |f| < 7 || f[4] != 0xBE || f[5] != 0xEF)
    ensures k == SL && (|f| < 5 || f[4] > 1) ==> ParseAs(k, f).Fail?
    ensures k == TF ==> (ParseAs(k, f).Fail? <==> |f| < 12)
  {
    hide ParseExtensions, ParseLink, ParseTimestamps, LE32;
    var d := f[4..];
    assert f[4..f[2]] == d && f[f[2]..] == [];
    if k == NM && |d| > 0 {
      assert d[1..] == f[5..];
    }
    BodiesKnown(d);
  }

  lemma BodiesKnown(d: seq<byte>)
    ensures ParseExtensions(d).Done? ==> ParseExtensions(d).value.Extensions?
    ensures ParseLink(d).Done? ==> ParseLink(d).value.Link?
    ensures d == [] || d[0] > 1 ==> ParseLink(d).Fail?
    ensures ParseTimestamps(d).Done? ==> ParseTimestamps(d).value.Timestamps?
    ensures ParseTimestamps(d).Fail? <==> |d| < 8
  {
    hide ParseExtension, ParseLinkRecord, Assign, Many;
    if |d| >= 8 {
      StampsNeverFail(d[1..][7..]);
    }
  }

  lemma {:induction false} StampsNeverFail(i: seq<byte>)
    ensures Many(ParseStamp, i).Done?
    decreases |i|
  {
    if |i| >= 7 {
      StampsNeverFail(i[7..]);
    }
  }

  // ---- flags and numbers ----

  /** Of the flags of an `NM` field bits 0, 1, 2 and 5 are kept, and no others. */
  lemma NameFlagBits(f: byte)
    ensures var kept, n := NameFlags(f) as int, f as int;
            kept % 8 == n % 8 && kept / 32 % 2 == n / 32 % 2 && kept / 8 % 4 == 0 && kept < 64
  {
    KeptBits(f as int % 8, f as int / 32 % 2);
  }

  lemma KeptBits(low: nat, high: nat)
    requires low < 8 && high < 2
    ensures var kept := low + high * 32;
            kept % 8 == low && kept / 32 % 2 == high && kept / 8 % 4 == 0 && kept < 64
  {
  }

  /** A component record, byte by byte: its text and the low six bits of its flags, and none if the text is not valid */
  lemma ComponentRead(f: byte, text: Text, rest: seq<byte>)
    requires |text| < 0x100
    ensures var r := ParseLinkRecord([f, |text| as byte] + text + rest);
            if ValidUtf8(text) then
              r.Done? && r.rest == rest && r.value.component == text && r.value.flags as int == f as int % 64
            else r.Fail?
  {
    hide ValidUtf8;
    var i := [f, |text| as byte] + text + rest;
    assert i[2..2 + |text|] == text && i[2 + |text|..] == rest;
  }

  /** The 16 bits of a `PX` field's mode, its numbers, and its serial number in the long form */
  lemma AttributesRead(f: seq<byte>)
    requires IsField(f) && f[..2] == [80, 88] && f[3] == 1 && |f| in {36, 44}
    ensures ParseEntry(f) ==
              Done(Attributes(f[4] as int + 0x100 * f[5] as int, LE32(f, 12), LE32(f, 20), LE32(f, 28),
                              if |f| == 44 then Some(LE32(f, 36)) else None), [])
  {
    hide ParseEntry, LE32;
    var d := f[4..];
    assert Signature(PX) == f[..2];
    OwnKindOrUnknown(f, PX);
    assert f[4..f[2]] == d && f[f[2]..] == [];
    WordWithin(f, 0); WordWithin(f, 8); WordWithin(f, 16); WordWithin(f, 24);
    if |f| == 44 {
      WordWithin(f, 32);
    }
    LowHalf(d);
  }

  lemma WordWithin(f: seq<byte>, at: nat)
    requires at + 8 <= |f|
    ensures LE32(f[4..], at) == LE32(f, at + 4)
  {
    assert f[4..][at] == f[at + 4] && f[4..][at + 1] == f[at + 5];
  }

  lemma LowHalf(d: seq<byte>)
    requires |d| >= 4
    ensures LE32(d, 0) % 0x1_0000 == d[0] as int + 0x100 * d[1] as int
  {
    var low, high := d[0] as int + 0x100 * d[1] as int, d[2] as int + 0x100 * d[3] as int;
    assert LE32(d, 0) == low + 0x1_0000 * high;
  }

  // ---- extension references ----

  /** Rock Ridge 1.09 is called "RRIP_1991A", Rock Ridge 1.12 "IEEE_P1282" or "IEEE_1282". */
  function Called(name: Text): Option<Extension> {
    if name == [82, 82, 73, 80, 95, 49, 57, 57, 49, 65] then Some(RockRidge109)
    else if name == [73, 69, 69, 69, 95, 80, 49, 50, 56, 50] || name == [73, 69, 69, 69, 95, 49, 50, 56, 50]
    then Some(RockRidge112)
    else None
  }

  /** An `ER` field: three length bytes and a version, and after them the three texts */
  function ReferenceField(id: Text, description: Text, source: Text, version: byte): (f: seq<byte>)
    requires 8 + |id| + |description| + |source| < 0x100
  {
    [69, 82, (8 + |id| + |description| + |source|) as byte, 1,
     |id| as byte, |description| as byte, |source| as byte, version] + id + description + source
  }

  /**
   * An `ER` field with one reference registers the extension that its identifier names, white space at its end
   * apart; any other identifier or version makes the reader panic. Where one of the texts is not valid, the field is
   * passed over as an unknown entry.
   */
  lemma ReferenceRegisters(id: Text, description: Text, source: Text, version: byte)
    requires 8 + |id| + |description| + |source| < 0x100
    ensures var f := ReferenceField(id, description, source, version);
            ParseEntry(f) ==
              if !ValidUtf8(id) || !ValidUtf8(description) || !ValidUtf8(source)
              then Done(Unknown([69, 82], 1, f[4..]), [])
              else
                match Called(TrimEnd(id))
                case Some(x) => if version == 1 then Done(Extensions([x]), []) else Panicked
                case None => Panicked
  {
    hide ValidUtf8, TrimEnd, ParseEntry, ParseAs, ParseExtension, ParseExtensions, ReferenceField, Called;
    var f := ReferenceField(id, description, source, version);
    ReferenceCut(id, description, source, version);
    OwnKindOrUnknown(f, ER);
    TextsCut(f[4..], id, description, source, version);
    ReferenceJudged(id, description, source, version);
    OneReference(f[4..]);
    AsReference(f);
  }

  lemma ReferenceCut(id: Text, description: Text, source: Text, version: byte)
    requires 8 + |id| + |description| + |source| < 0x100
    ensures var f := ReferenceField(id, description, source, version);
            && IsField(f) && f[..2] == [69, 82] == Signature(ER) && f[3] == 1
            && f[4..] == [|id| as byte, |description| as byte, |source| as byte, version] + id + description + source
  {
  }

  lemma AsReference(f: seq<byte>)
    requires IsField(f) && f[..2] == [69, 82] && f[3] == 1
    ensures ParseAs(ER, f) ==
              match ParseExtensions(f[4..])
              case Done(e, _) => Done(e, [])
              case Fail => Fail
              case Panicked => Panicked
  {
    hide ParseExtensions;
    assert f[4..f[2]] == f[4..] && f[f[2]..] == [];
  }

  /** A field that is a single reference */
  lemma OneReference(d: seq<byte>)
    requires var r := ParseExtension(d); r.Done? ==> r.rest == []
    ensures var r := ParseExtension(d);
            ParseExtensions(d) ==
              match r
              case Done(x, _) => Done(Extensions([x]), [])
              case Fail => Fail
              case Panicked => Panicked
  {
    hide ParseExtension;
    NothingIsNoReference();
    var r := ParseExtension(d);
    assert Many(ParseExtension, []) == Done([], []);
    if r.Done? {
      assert [r.value] + [] == [r.value];
    }
  }

  lemma TextsCut(d: seq<byte>, id: Text, description: Text, source: Text, version: byte)
    requires 8 + |id| + |description| + |source| < 0x100
    requires d == [|id| as byte, |description| as byte, |source| as byte, version] + id + description + source
    ensures ParseExtension(d) == JudgeExtension(id, description, source, version, [])
  {
    hide JudgeExtension;
    var a, b, c := 4 + |id|, 4 + |id| + |description|, 4 + |id| + |description| + |source|;
    assert d[4..a] == id && d[a..b] == description && d[b..c] == source && d[c..] == [];
  }

  lemma ReferenceJudged(id: Text, description: Text, source: Text, version: byte)
    ensures JudgeExtension(id, description, source, version, []) ==
              if !ValidUtf8(id) || !ValidUtf8(description) || !ValidUtf8(source) then Fail
              else
                match Called(TrimEnd(id))
                case Some(x) => if version == 1 then Done(x, []) else Panicked
                case None => Panicked
  {
    hide ValidUtf8, TrimEnd;
  }
}
