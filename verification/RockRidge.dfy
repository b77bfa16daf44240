/**
 Reassembling Rock Ridge names and symbolic link targets from the system use entries of a record.
 */
module RockRidge {
  import opened Base
  import opened Strings
  import opened Susp

  // ---- alternate names (section 4.1.4 of RRIP) ----

  function Names(es: seq<Entry>): (ns: seq<Entry>)
    ensures forall n :: n in ns ==> n.Name?
  {
    if es == [] then [] else (if es[0].Name? then [es[0]] else []) + Names(es[1..])
  }

  /** `take_while_inclusive` on the CONTINUE flag */
  function ContinuedNames(ns: seq<Entry>): seq<Entry>
    requires forall n :: n in ns ==> n.Name?
  {
    if ns == [] then []
    else if Bit(ns[0].nameFlags as int, 1) then [ns[0]] + ContinuedNames(ns[1..])
    else [ns[0]]
  }

  function JoinNames(ns: seq<Entry>): Text {
    if ns == [] then [] else (if ns[0].Name? then ns[0].name else []) + JoinNames(ns[1..])
  }

  /** `alt_name` */
  function AltName(es: seq<Entry>): Option<Text> {
    if Names(es) == [] then None else Some(JoinNames(ContinuedNames(Names(es))))
  }

  /** A raw `NM` field: header, flag byte, piece of the name. */
  predicate IsNameField(f: seq<byte>) {
    |f| >= 2 && f[..2] == Signature(NM)
  }

  /** The name pieces carried by a list of raw fields. */
  function Pieces(fs: seq<seq<byte>>): (ps: seq<seq<byte>>) {
    if fs == [] then []
    else (if IsNameField(fs[0]) && |fs[0]| >= 5 then [fs[0][5..]] else []) + Pieces(fs[1..])
  }

  /** Every `NM` field has its flag byte, and says CONTINUE exactly when another `NM` field follows. */
  predicate ProperlyCut(fs: seq<seq<byte>>) {
    fs == [] || (ProperlyCut(fs[1..]) &&
      (IsNameField(fs[0]) ==> |fs[0]| >= 5 && (Bit(fs[0][4] as int, 1) <==> Pieces(fs[1..]) != [])))
  }

  /** A piece that survives parsing: valid UTF-8 by itself, with no NUL at either end. */
  predicate Intact(p: Text) {
    ValidUtf8(p) && (p == [] || (p[0] != 0 && p[|p| - 1] != 0))
  }

  lemma {:induction false} OnlyNamesFromNM(ks: seq<Kind>, i: seq<byte>)
    requires Alternatives(ks, i).Done?
    ensures Alternatives(ks, i).value.Name? ==> Signature(NM) <= i
  {
    if ParseAs(ks[0], i).Fail? {
      OnlyNamesFromNM(ks[1..], i);
    }
  }

  lemma {:induction false} AlternativesDrop(ks: seq<Kind>, n: nat, i: seq<byte>)
    requires n <= |ks| && forall m :: 0 <= m < n ==> ParseAs(ks[m], i).Fail?
    ensures Alternatives(ks, i) == Alternatives(ks[n..], i)
  {
    if n > 0 {
      AlternativesDrop(ks[1..], n - 1, i);
      assert ks[1..][n - 1..] == ks[n..];
    } else {
      assert ks[0..] == ks;
    }
  }

  lemma NameFieldAs(f: seq<byte>)
    requires Fits(f) && |f| == f[2] as int && IsNameField(f) && |f| >= 5
    ensures f[3] == 1 && ValidUtf8(f[5..]) ==> ParseAs(NM, f) == Done(Name(NameFlags(f[4]), TrimNuls(f[5..])), [])
    ensures f[3] == 1 && !ValidUtf8(f[5..]) ==> ParseAs(NM, f).Fail?
    ensures f[3] != 1 ==> ParseAs(NM, f).Panicked?
    ensures forall k: Kind :: k != NM && k != Any ==> ParseAs(k, f).Fail?
  {
    assert f[4..f[2]][1..] == f[5..] && f[f[2]..] == [];
    forall k: Kind | k != NM && k != Any
      ensures ParseAs(k, f).Fail?
    {
      assert |Signature(k)| == 2 && Signature(k) != Signature(NM);
    }
  }

  /** A name piece that is not valid UTF-8 by itself falls through to the catch-all entry. */
  lemma NameFieldParses(f: seq<byte>)
    requires Fits(f) && |f| == f[2] as int && IsNameField(f) && |f| >= 5 && ParseEntry(f).Done?
    ensures ValidUtf8(f[5..]) ==> ParseEntry(f).value == Name(NameFlags(f[4]), TrimNuls(f[5..]))
    ensures !ValidUtf8(f[5..]) ==> ParseEntry(f).value.Unknown?
  {
    NameFieldAs(f);
    AlternativesDrop(KINDS, 4, f);
    assert KINDS[4..][0] == NM;
    if f[3] == 1 && !ValidUtf8(f[5..]) {
      AlternativesDrop(KINDS, 10, f);
      assert KINDS[10..] == [Any];
    }
  }

  /** How a field shows up in the name: as its trimmed piece when that is valid UTF-8, or not at all. */
  ghost predicate ReadAs(f: seq<byte>, e: Entry) {
    if IsNameField(f) && |f| >= 5 && ValidUtf8(f[5..]) then e == Name(NameFlags(f[4]), TrimNuls(f[5..]))
    else !e.Name?
  }

  lemma FieldReadAs(f: seq<byte>, e: Entry)
    requires Fits(f) && |f| == f[2] as int && ParseEntry(f) == Done(e, []) && (IsNameField(f) ==> |f| >= 5)
    ensures ReadAs(f, e)
  {
    if IsNameField(f) {
      NameFieldParses(f);
    } else {
      OnlyNamesFromNM(KINDS, f);
    }
  }

  predicate AllIntact(ps: seq<Text>) {
    ps == [] || (Intact(ps[0]) && AllIntact(ps[1..]))
  }

  /** What the reader keeps (of `count` name entries), against the name and pieces the image carries. */
  ghost predicate AtMost(kept: Text, count: nat, name: Text, ps: seq<Text>) {
    && |kept| <= |name|
    && (|kept| == |name| ==> AllIntact(ps))
    && (AllIntact(ps) ==> kept == name && count == |ps|)
    && (ps == [] ==> count == 0)
  }

  ghost predicate KeepsAtMost(fs: seq<seq<byte>>, es: seq<Entry>) {
    AtMost(JoinNames(ContinuedNames(Names(es))), |Names(es)|, Flatten(Pieces(fs)), Pieces(fs))
  }

  lemma AtMostOneMore(p: Text, kept: Text, count: nat, name: Text, ps: seq<Text>)
    requires AtMost(kept, count, name, ps)
    ensures ValidUtf8(p) ==> AtMost(TrimNuls(p) + kept, count + 1, p + name, [p] + ps)
    ensures !ValidUtf8(p) ==> AtMost(kept, count, p + name, [p] + ps)
  {
    assert ([p] + ps)[1..] == ps;
    assert !ValidUtf8(p) ==> p != [];
    assert Intact(p) <==> ValidUtf8(p) && |TrimNuls(p)| == |p|;
  }

  /** One valid piece more in front. */
  lemma JoinOneMore(e: Entry, es: seq<Entry>)
    requires e.Name?
    requires Bit(e.nameFlags as int, 1) || Names(es) == []
    ensures Names([e] + es) == [e] + Names(es)
    ensures JoinNames(ContinuedNames([e] + Names(es))) == e.name + JoinNames(ContinuedNames(Names(es)))
  {
    var ns := [e] + Names(es);
    assert ([e] + es)[1..] == es && ns[1..] == Names(es);
    if Bit(e.nameFlags as int, 1) {
      assert ([e] + ContinuedNames(Names(es)))[1..] == ContinuedNames(Names(es));
    } else {
      assert ContinuedNames(ns) == [e];
      assert [e][1..] == [];
    }
  }

  lemma PiecesOneMore(f: seq<byte>, fs: seq<seq<byte>>)
    requires IsNameField(f) && |f| >= 5
    ensures Pieces([f] + fs) == [f[5..]] + Pieces(fs)
    ensures Flatten(Pieces([f] + fs)) == f[5..] + Flatten(Pieces(fs))
  {
    var ps := [f[5..]] + Pieces(fs);
    assert ([f] + fs)[1..] == fs && ps[1..] == Pieces(fs);
  }

  lemma ContinueFlagKept(f: byte)
    ensures Bit(NameFlags(f) as int, 1) <==> Bit(f as int, 1)
  {
    var n := f as int;
    assert (n % 8 + n / 32 % 2 * 32) % 2 == n % 2;
  }

  lemma KeepsOnePiece(f: seq<byte>, e: Entry, fs: seq<seq<byte>>, es: seq<Entry>)
    requires ReadAs(f, e) && KeepsAtMost(fs, es)
    requires IsNameField(f) && |f| >= 5 && (Bit(f[4] as int, 1) <==> Pieces(fs) != [])
    ensures KeepsAtMost([f] + fs, [e] + es)
  {
    PiecesOneMore(f, fs);
    ContinueFlagKept(f[4]);
    AtMostOneMore(f[5..], JoinNames(ContinuedNames(Names(es))), |Names(es)|, Flatten(Pieces(fs)), Pieces(fs));
    if ValidUtf8(f[5..]) {
      JoinOneMore(e, es);
    } else {
      assert ([e] + es)[1..] == es;
      assert Names([e] + es) == Names(es);
    }
  }

  lemma {:induction false} NameKept(fs: seq<seq<byte>>, es: seq<Entry>)
    requires |fs| == |es| && ProperlyCut(fs) && forall k :: 0 <= k < |fs| ==> ReadAs(fs[k], es[k])
    ensures KeepsAtMost(fs, es)
  {
    if fs != [] {
      NameKept(fs[1..], es[1..]);
      if IsNameField(fs[0]) {
        KeepsOnePiece(fs[0], es[0], fs[1..], es[1..]);
        assert fs == [fs[0]] + fs[1..] && es == [es[0]] + es[1..];
      } else {
        assert Names(es) == Names(es[1..]) && Pieces(fs) == Pieces(fs[1..]);
      }
    }
  }

  lemma {:induction false} ProperlyCutEach(fs: seq<seq<byte>>)
    requires ProperlyCut(fs)
    ensures forall f :: f in fs ==> IsNameField(f) ==> |f| >= 5
  {
    if fs != [] {
      ProperlyCutEach(fs[1..]);
      assert fs == [fs[0]] + fs[1..];
    }
  }

  /**
   * A name cut into any number of `NM` fields, interleaved with any other fields, is given back
   * exactly when every piece is valid UTF-8 by itself and has no NUL at either end.
   */
  lemma NameReassembly(fs: seq<seq<byte>>, es: seq<Entry>)
    requires ParsedFrom(ParseEntry, es, fs) && ProperlyCut(fs) && Pieces(fs) != []
    requires forall f :: f in fs ==> Fits(f) && |f| == f[2] as int
    ensures AltName(es) == Some(Flatten(Pieces(fs))) <==> AllIntact(Pieces(fs))
  {
    ProperlyCutEach(fs);
    forall k | 0 <= k < |fs|
      ensures ReadAs(fs[k], es[k])
    {
      assert fs[k] in fs;
      FieldReadAs(fs[k], es[k]);
    }
    NameKept(fs, es);
  }

  // ---- symbolic link targets (section 4.1.3 of RRIP) ----

  predicate IsAbsolute(p: Text) {
    p != [] && p[0] == SLASH
  }

  /** What `join` puts between a path and a relative one */
  function Separator(a: Text): Text {
    if a == [] || a[|a| - 1] == SLASH then [] else [SLASH]
  }

  /** `Path::join` on Unix */
  function JoinPath(a: Text, b: Text): Text {
    if IsAbsolute(b) then b else a + Separator(a) + b
  }

  lemma JoinPathEmpty(a: Text, c: Text)
    ensures JoinPath([], c) == c
    ensures JoinPath(JoinPath(a, []), c) == JoinPath(a, c)
  {
    assert a + Separator(a) + [] == a + Separator(a);
  }

  /** Joining paths is associative, absolute and empty components included. */
  lemma JoinPathAssociates(a: Text, b: Text, c: Text)
    ensures JoinPath(JoinPath(a, b), c) == JoinPath(a, JoinPath(b, c))
  {
    if b == [] {
      JoinPathEmpty(a, c);
    } else if !IsAbsolute(c) && !IsAbsolute(b) {
      var ab, bc := a + Separator(a) + b, b + Separator(b) + c;
      assert bc[0] == b[0];
      assert ab[|ab| - 1] == b[|b| - 1];
      assert ab + Separator(b) + c == a + Separator(a) + bc;
    }
  }

  /** Special components carry no text of their own; the `assertions` feature makes that a panic. */
  predicate IsSane(r: LinkRecord) {
    (Bit(r.flags as int, 8) || Bit(r.flags as int, 2) || Bit(r.flags as int, 4)) ==> r.component == []
  }

  /** The path of one component record: root, current, parent, or its text */
  function ComponentPath(r: LinkRecord): Text {
    if Bit(r.flags as int, 8) then [SLASH]
    else if Bit(r.flags as int, 2) then [46]
    else if Bit(r.flags as int, 4) then [46, 46]
    else r.component
  }

  function FoldPath(acc: Text, rs: seq<LinkRecord>): Text
    decreases rs
  {
    if rs == [] then acc else FoldPath(JoinPath(acc, ComponentPath(rs[0])), rs[1..])
  }

  function Links(es: seq<Entry>): (ls: seq<Entry>)
    ensures forall l :: l in ls ==> l.Link?
  {
    if es == [] then [] else (if es[0].Link? then [es[0]] else []) + Links(es[1..])
  }

  /** `take_while_inclusive` on `should_continue` */
  function ContinuedLinks(ls: seq<Entry>): (cs: seq<Entry>)
    requires forall l :: l in ls ==> l.Link?
    ensures cs <= ls && forall l :: l in cs ==> l.Link?
  {
    if ls == [] then []
    else if ls[0].more then [ls[0]] + ContinuedLinks(ls[1..])
    else [ls[0]]
  }

  /** The outer fold: each field's path is joined to what the fields before it gave. */
  function FoldLinks(acc: Text, ls: seq<Entry>): Text
    requires forall l :: l in ls ==> l.Link?
    decreases ls
  {
    if ls == [] then acc else FoldLinks(JoinPath(acc, FoldPath([], ls[0].records)), ls[1..])
  }

  /** `symlink_target` */
  function LinkTarget(es: seq<Entry>): Result<Option<Text>> {
    var ls := ContinuedLinks(Links(es));
    if ls == [] then Ok(None)
    else if exists r :: r in AllRecords(ls) && !IsSane(r) then Err(Panic)
    else Ok(Some(FoldLinks([], ls)))
  }

  function AllRecords(ls: seq<Entry>): seq<LinkRecord>
    requires forall l :: l in ls ==> l.Link?
  {
    if ls == [] then [] else ls[0].records + AllRecords(ls[1..])
  }

  /** A parsed `SL` field carries at least one component record. */
  lemma {:induction false} ParsedLinksHaveRecords(ks: seq<Kind>, i: seq<byte>)
    requires Alternatives(ks, i).Done?
    ensures Alternatives(ks, i).value.Link? ==> Alternatives(ks, i).value.records != []
  {
    if ParseAs(ks[0], i).Fail? {
      ParsedLinksHaveRecords(ks[1..], i);
    }
  }

  lemma {:induction false} JoinIntoFold(a: Text, b: Text, rs: seq<LinkRecord>)
    ensures JoinPath(a, FoldPath(b, rs)) == FoldPath(JoinPath(a, b), rs)
    decreases rs
  {
    if rs != [] {
      var c := ComponentPath(rs[0]);
      JoinIntoFold(a, JoinPath(b, c), rs[1..]);
      JoinPathAssociates(a, b, c);
    }
  }

  lemma {:induction false} FoldPathAppend(acc: Text, a: seq<LinkRecord>, b: seq<LinkRecord>)
    ensures FoldPath(acc, a + b) == FoldPath(FoldPath(acc, a), b)
    decreases a
  {
    if a == [] {
      assert a + b == b;
    } else {
      assert (a + b)[1..] == a[1..] + b && (a + b)[0] == a[0];
      FoldPathAppend(JoinPath(acc, ComponentPath(a[0])), a[1..], b);
    }
  }

  /** Joining field by field is joining record by record: the cuts between fields leave no trace. */
  lemma {:induction false} FoldLinksFlattens(acc: Text, ls: seq<Entry>)
    requires forall l :: l in ls ==> l.Link? && l.records != []
    ensures FoldLinks(acc, ls) == FoldPath(acc, AllRecords(ls))
    decreases ls
  {
    if ls != [] {
      var rs := ls[0].records;
      var c := ComponentPath(rs[0]);
      JoinPathEmpty([], c);
      JoinIntoFold(acc, c, rs[1..]);
      assert JoinPath(acc, FoldPath([], rs)) == FoldPath(acc, rs);
      FoldLinksFlattens(FoldPath(acc, rs), ls[1..]);
      FoldPathAppend(acc, rs, AllRecords(ls[1..]));
    }
  }

  lemma {:induction false} ParsedLinks(es: seq<Entry>, fs: seq<seq<byte>>)
    requires ParsedFrom(ParseEntry, es, fs)
    ensures forall l :: l in Links(es) ==> l.records != []
  {
    if es != [] {
      ParsedLinksHaveRecords(KINDS, fs[0]);
      assert ParseEntry(fs[0]) == Done(es[0], []);
      ParsedLinks(es[1..], fs[1..]);
    }
  }

  /** What component records, taken one after the other, lead to */
  function TargetOf(rs: seq<LinkRecord>): Result<Option<Text>> {
    if rs == [] then Ok(None)
    else if exists r :: r in rs && !IsSane(r) then Err(Panic)
    else Ok(Some(FoldPath([], rs)))
  }

  /** The link target is that of the component records of the continued fields, taken together. */
  lemma LinkTargetOfRecords(es: seq<Entry>, fs: seq<seq<byte>>)
    requires ParsedFrom(ParseEntry, es, fs)
    ensures LinkTarget(es) == TargetOf(AllRecords(ContinuedLinks(Links(es))))
  {
    var ls := ContinuedLinks(Links(es));
    ParsedLinks(es, fs);
    FoldLinksFlattens([], ls);
    assert ls == [] <==> AllRecords(ls) == [];
  }

  /**
   * Two records whose continued `SL` fields carry the same component records, however these are
   * cut into fields and whatever lies between, have the same link target.
   */
  lemma LinkTargetIgnoresCuts(es: seq<Entry>, es': seq<Entry>, fs: seq<seq<byte>>, fs': seq<seq<byte>>)
    requires ParsedFrom(ParseEntry, es, fs) && ParsedFrom(ParseEntry, es', fs')
    requires AllRecords(ContinuedLinks(Links(es))) == AllRecords(ContinuedLinks(Links(es')))
    ensures LinkTarget(es) == LinkTarget(es')
  {
    LinkTargetOfRecords(es, fs);
    LinkTargetOfRecords(es', fs');
  }
}
