/**
 Symbolic link targets as section 4.1.3 of RRIP spells them: which path a list of component records
 stands for, however it is cut into `SL` entries.
 */
module LinkPaths {
  import opened Base
  import opened Susp
  import opened RockRidge
  import opened Paths

  /** One step of a path */
  datatype Part = FromRoot | Here | Up | Named(name: Text)

  /** The component record says this part: ROOT is bit 3, CURRENT bit 1, PARENT bit 2 of its flags, in this order. */
  predicate SaysPart(r: LinkRecord, p: Part) {
    var f := r.flags as int;
    match p
    case FromRoot => f / 8 % 2 == 1 && r.component == []
    case Here => f / 8 % 2 == 0 && f / 2 % 2 == 1 && r.component == []
    case Up => f / 8 % 2 == 0 && f / 2 % 2 == 0 && f / 4 % 2 == 1 && r.component == []
    case Named(name) =>
      && f / 8 % 2 == 0 && f / 2 % 2 == 0 && f / 4 % 2 == 0
      && r.component == name && IsName(name)
  }

  predicate SayParts(rs: seq<LinkRecord>, ps: seq<Part>) {
    |rs| == |ps| && forall k :: 0 <= k < |ps| ==> SaysPart(rs[k], ps[k])
  }

  /** The record for a part as it is mastered */
  function RecordFor(p: Part): (r: LinkRecord)
    ensures (p.Named? ==> IsName(p.name)) ==> SaysPart(r, p)
  {
    match p
    case FromRoot => LinkRecord(8, [])
    case Here => LinkRecord(2, [])
    case Up => LinkRecord(4, [])
    case Named(name) => LinkRecord(0, name)
  }

  // ---- the path as a text ----

  function Word(p: Part): Text {
    match p
    case FromRoot => []
    case Here => [46]
    case Up => [46, 46]
    case Named(name) => name
  }

  /** The words of some parts with single slashes between them */
  function Words(ps: seq<Part>): Text {
    if ps == [] then []
    else if |ps| == 1 then Word(ps[0])
    else Word(ps[0]) + [47] + Words(ps[1..])
  }

  /** A path starts over at every part that goes back to the root. */
  function PathText(ps: seq<Part>): Text
    decreases |ps|
  {
    if exists k :: 0 < k < |ps| && ps[k].FromRoot? then PathText(ps[1..])
    else if ps != [] && ps[0].FromRoot? then [47] + Words(ps[1..])
    else Words(ps)
  }

  // ---- joining component by component gives that path ----

  lemma WordEnds(p: Part)
    requires !p.FromRoot? && (p.Named? ==> IsName(p.name))
    ensures Word(p) != [] && Word(p)[0] != 47 && Last(Word(p)) != 47
  {
  }

  lemma {:induction false} WordsEnd(ps: seq<Part>)
    requires ps != [] && forall k :: 0 <= k < |ps| ==> !ps[k].FromRoot? && (ps[k].Named? ==> IsName(ps[k].name))
    ensures Words(ps) != [] && Words(ps)[0] != 47 && Last(Words(ps)) != 47
  {
    hide Word, IsName;
    WordEnds(ps[0]);
    if |ps| > 1 {
      WordsEnd(ps[1..]);
    }
  }

  lemma {:induction false} WordsGoOn(ps: seq<Part>, p: Part)
    requires ps != []
    ensures Words(ps + [p]) == Words(ps) + [47] + Word(p)
  {
    var all := ps + [p];
    assert all[0] == ps[0] && all[1..] == ps[1..] + [p];
    if |ps| == 1 {
      assert all[1..] == [p];
    } else {
      WordsGoOn(ps[1..], p);
      assert Word(ps[0]) + [47] + (Words(ps[1..]) + [47] + Word(p))
          == Word(ps[0]) + [47] + Words(ps[1..]) + [47] + Word(p);
    }
  }

  predicate AllProper(ps: seq<Part>) {
    forall k :: 0 <= k < |ps| ==> (ps[k].Named? ==> IsName(ps[k].name))
  }

  /** A path that does not start over */
  predicate StartsOnce(ps: seq<Part>) {
    forall k :: 0 < k < |ps| ==> !ps[k].FromRoot?
  }

  lemma {:induction false} PathIsSomething(ps: seq<Part>)
    requires AllProper(ps)
    ensures PathText(ps) == [] <==> ps == []
    decreases |ps|
  {
    hide Words;
    if !StartsOnce(ps) {
      assert forall k :: 0 <= k < |ps[1..]| ==> ps[1..][k] == ps[k + 1];
      PathIsSomething(ps[1..]);
    } else if ps != [] && !ps[0].FromRoot? {
      WordsEnd(ps);
    } else {
      OneWord(Here);
    }
  }

  /** One part more at the end of a path */
  lemma {:induction false} PathGoesOn(ps: seq<Part>, p: Part)
    requires AllProper(ps) && (p.Named? ==> IsName(p.name)) && ps != []
    ensures PathText(ps) != []
    ensures PathText(ps + [p]) ==
              if p.FromRoot? then [47]
              else PathText(ps) + (if Last(PathText(ps)) == 47 then [] else [47]) + Word(p)
    decreases |ps|
  {
    hide Words, Last, IsName;
    var all := ps + [p];
    PathIsSomething(ps);
    assert all[0] == ps[0] && all[1..] == ps[1..] + [p] && all[|ps|] == p;
    assert forall k :: 0 < k < |ps| ==> ps[k] == ps[1..][k - 1] == all[k] && all[k] == all[1..][k - 1];
    if StartsOnce(all) {
      LastPathGoesOn(ps, p);
    } else if ps[1..] == [] {
      assert all[1..] == [p] && [p][1..] == [];
      OneWord(p);
    } else {
      assert AllProper(ps[1..]);
      PathGoesOn(ps[1..], p);
      if !StartsOnce(ps) {
        assert PathText(all) == PathText(all[1..]) && PathText(ps) == PathText(ps[1..]);
      }
    }
  }

  /** The same for a path that does not start over */
  lemma LastPathGoesOn(ps: seq<Part>, p: Part)
    requires ps != [] && AllProper(ps) && StartsOnce(ps) && StartsOnce(ps + [p]) && !p.FromRoot?
    ensures PathText(ps) != []
    ensures PathText(ps + [p]) == PathText(ps) + (if Last(PathText(ps)) == 47 then [] else [47]) + Word(p)
  {
    hide Words, Word, IsName;
    var all, rest := ps + [p], ps[1..];
    assert all[0] == ps[0] && all[1..] == rest + [p];
    if ps[0].FromRoot? {
      if rest == [] {
        assert all[1..] == [p];
        OneWord(p);
      } else {
        WordsGoOn(rest, p);
        WordsEnd(rest);
      }
    } else {
      WordsGoOn(ps, p);
      WordsEnd(ps);
    }
  }

  lemma OneWord(p: Part)
    ensures Words([]) == [] && Words([p]) == Word(p)
  {
  }

  lemma PartOfComponent(r: LinkRecord, p: Part)
    requires SaysPart(r, p)
    ensures IsSane(r) && ComponentPath(r) == if p.FromRoot? then [47] else Word(p)
    ensures IsAbsolute(ComponentPath(r)) <==> p.FromRoot?
  {
  }

  lemma PartsAreProper(rs: seq<LinkRecord>, ps: seq<Part>)
    requires SayParts(rs, ps)
    ensures AllProper(ps)
  {
    assert forall k :: 0 <= k < |ps| ==> SaysPart(rs[k], ps[k]);
  }

  /** Joining one more record onto a path */
  lemma JoinSpells(done: seq<Part>, r: LinkRecord, p: Part)
    requires AllProper(done) && SaysPart(r, p)
    ensures JoinPath(PathText(done), ComponentPath(r)) == PathText(done + [p])
  {
    hide PathText, ComponentPath;
    PartOfComponent(r, p);
    PathOfNothing(p);
    if done == [] {
      assert done + [p] == [p];
      JoinPathEmpty([], ComponentPath(r));
    } else {
      PathGoesOn(done, p);
    }
  }

  lemma PathOfNothing(p: Part)
    ensures PathText([]) == [] && PathText([p]) == if p.FromRoot? then [47] else Word(p)
  {
    assert [p][1..] == [];
  }

  /** Joining records one by one onto a path spells the path of their parts. */
  lemma {:induction false} FoldSpells(done: seq<Part>, rs: seq<LinkRecord>, ps: seq<Part>)
    requires SayParts(rs, ps) && AllProper(done)
    ensures FoldPath(PathText(done), rs) == PathText(done + ps)
    decreases |rs|
  {
    hide PathText, ComponentPath, JoinPath, SaysPart;
    if rs == [] {
      assert done + ps == done;
    } else {
      PartsAreProper(rs, ps);
      JoinSpells(done, rs[0], ps[0]);
      assert done + ps == done + [ps[0]] + ps[1..];
      FoldSpells(done + [ps[0]], rs[1..], ps[1..]);
    }
  }

  // ---- cut into fields ----

  /**
   * Among these entries the `SL` entries up to the first that does not continue carry the parts, cut
   * like that; what comes after it, and what lies between, does not matter.
   */
  ghost predicate CarryParts(es: seq<Entry>, cuts: seq<seq<Part>>) {
    if es == [] then cuts == []
    else if !es[0].Link? then CarryParts(es[1..], cuts)
    else
      && cuts != [] && cuts[0] != [] && SayParts(es[0].records, cuts[0])
      && if es[0].more then CarryParts(es[1..], cuts[1..]) else |cuts| == 1
  }

  lemma {:induction false} CarriedRecords(es: seq<Entry>, cuts: seq<seq<Part>>)
    requires CarryParts(es, cuts)
    ensures var ls := ContinuedLinks(Links(es));
            && SayParts(AllRecords(ls), Flatten(cuts))
            && (forall l :: l in ls ==> l.records != []) && (ls == [] <==> cuts == [])
  {
    if es != [] {
      var ls := Links(es);
      if !es[0].Link? {
        CarriedRecords(es[1..], cuts);
        assert ls == Links(es[1..]);
      } else {
        assert ls[0] == es[0] && ls[1..] == Links(es[1..]);
        var cs := ContinuedLinks(ls);
        if es[0].more {
          CarriedRecords(es[1..], cuts[1..]);
          assert cs[0] == es[0] && cs[1..] == ContinuedLinks(ls[1..]);
        } else {
          assert cs == [es[0]] && cs[1..] == [] && cuts[1..] == [];
          assert AllRecords(cs) == es[0].records + [] && Flatten(cuts) == cuts[0] + [];
        }
      }
    }
  }

  /**
   * The link target of entries that carry a path is the text of that path, wherever it is cut; there
   * is none exactly if no entry carries any of it.
   */
  lemma LinkSpellsPath(es: seq<Entry>, cuts: seq<seq<Part>>)
    requires CarryParts(es, cuts)
    ensures LinkTarget(es) == Ok(if cuts == [] then None else Some(PathText(Flatten(cuts))))
  {
    hide PathText, FoldPath, SaysPart;
    var ls := ContinuedLinks(Links(es));
    CarriedRecords(es, cuts);
    var rs, ps := AllRecords(ls), Flatten(cuts);
    AllSane(rs, ps);
    if cuts != [] {
      FoldLinksFlattens([], ls);
      FoldSpells([], rs, ps);
      PathOfNothing(Here);
      assert [] + ps == ps;
    }
  }

  lemma AllSane(rs: seq<LinkRecord>, ps: seq<Part>)
    requires SayParts(rs, ps)
    ensures forall r :: r in rs ==> IsSane(r)
  {
    forall r | r in rs
      ensures IsSane(r)
    {
      var k :| 0 <= k < |rs| && rs[k] == r;
      PartOfComponent(rs[k], ps[k]);
    }
  }

  /** `SL` entries for a path in these cuts, as they are mastered: all but the last one continue. */
  function FieldsFor(cuts: seq<seq<Part>>): seq<Entry> {
    if cuts == [] then []
    else [Link(|cuts| > 1, Map(RecordFor, cuts[0]))] + FieldsFor(cuts[1..])
  }

  lemma {:induction false} MasteredCarry(cuts: seq<seq<Part>>)
    requires forall k :: 0 <= k < |cuts| ==> cuts[k] != [] && AllProper(cuts[k])
    ensures CarryParts(FieldsFor(cuts), cuts)
  {
    hide SaysPart, RecordFor;
    if cuts != [] {
      var es, ps := FieldsFor(cuts), cuts[0];
      assert es[1..] == FieldsFor(cuts[1..]);
      forall k | 0 <= k < |ps|
        ensures SaysPart(es[0].records[k], ps[k])
      {
        assert es[0].records[k] == RecordFor(ps[k]);
      }
      assert forall k :: 0 <= k < |cuts[1..]| ==> cuts[1..][k] == cuts[k + 1];
      MasteredCarry(cuts[1..]);
    }
  }

  /** A path is read back from the `SL` entries mastered for it, wherever it is cut. */
  lemma TargetRoundTrip(cuts: seq<seq<Part>>)
    requires forall k :: 0 <= k < |cuts| ==> cuts[k] != [] && AllProper(cuts[k])
    ensures LinkTarget(FieldsFor(cuts)) == Ok(if cuts == [] then None else Some(PathText(Flatten(cuts))))
  {
    hide LinkTarget, PathText, CarryParts;
    MasteredCarry(cuts);
    LinkSpellsPath(FieldsFor(cuts), cuts);
  }

  /** Among the records of the `SL` entries that go on one is root, current or parent and has a text. */
  predicate PanickingPart(es: seq<Entry>, k: nat, r: LinkRecord) {
    && k < |es| && es[k].Link? && r in es[k].records
    && (forall j :: 0 <= j < k && es[j].Link? ==> es[j].more)
    && r.component != [] && (var f := r.flags as int; f / 8 % 2 == 1 || f / 2 % 2 == 1 || f / 4 % 2 == 1)
  }

  /** A part that is no name and yet has a text makes the reader panic. */
  lemma {:induction false} SpecialPartWithText(es: seq<Entry>, k: nat, r: LinkRecord)
    requires PanickingPart(es, k, r)
    ensures LinkTarget(es) == Err(Panic)
  {
    InContinued(es, k, r);
    assert !IsSane(r);
  }

  lemma {:induction false} InContinued(es: seq<Entry>, k: nat, r: LinkRecord)
    requires k < |es| && es[k].Link? && r in es[k].records
    requires forall j :: 0 <= j < k && es[j].Link? ==> es[j].more
    ensures r in AllRecords(ContinuedLinks(Links(es))) && ContinuedLinks(Links(es)) != []
    decreases k
  {
    var ls := Links(es);
    if es[0].Link? {
      assert ls[0] == es[0] && ls[1..] == Links(es[1..]);
      assert ContinuedLinks(ls)[0] == es[0];
      if k > 0 {
        InContinued(es[1..], k - 1, r);
        assert ContinuedLinks(ls)[1..] == ContinuedLinks(ls[1..]);
      }
    } else {
      InContinued(es[1..], k - 1, r);
      assert ls == Links(es[1..]);
    }
  }

  /** `../x`, in one field, and cut after its first part */
  lemma UpAndDown()
    ensures LinkTarget([Link(false, [LinkRecord(4, []), LinkRecord(0, [120])])]) == Ok(Some([46, 46, 47, 120]))
    ensures LinkTarget([Link(true, [LinkRecord(4, [])]), Relocated, Link(false, [LinkRecord(0, [120])])])
         == Ok(Some([46, 46, 47, 120]))
  {
    hide LinkTarget, PathText;
    var ps: seq<Part> := [Up, Named([120])];
    assert IsName([120]);
    var once := [Link(false, [LinkRecord(4, []), LinkRecord(0, [120])])];
    assert CarryParts(once, [ps]);
    LinkSpellsPath(once, [ps]);
    var cut := [Link(true, [LinkRecord(4, [])]), Relocated, Link(false, [LinkRecord(0, [120])])];
    assert CarryParts(cut[2..], [[Named([120])]]) && cut[1..][1..] == cut[2..];
    assert CarryParts(cut[1..], [[Named([120])]]);
    assert [[Up], [Named([120])]][1..] == [[Named([120])]];
    assert CarryParts(cut, [[Up], [Named([120])]]);
    LinkSpellsPath(cut, [[Up], [Named([120])]]);
    TwoParts(ps);
  }

  lemma TwoParts(ps: seq<Part>)
    requires ps == [Up, Named([120])]
    ensures PathText(ps) == [46, 46, 47, 120] && Flatten([ps]) == ps
    ensures Flatten([[Up], [Named([120])]]) == ps
  {
    assert ps[1..] == [Named([120])] && Words(ps[1..]) == [120];
    assert Words(ps) == [46, 46] + [47] + [120];
    assert [ps][1..] == [] && Flatten([ps]) == ps + [];
    var cuts: seq<seq<Part>> := [[Up], [Named([120])]];
    assert cuts[1..] == [[Named([120])]] && cuts[1..][1..] == [];
    assert Flatten(cuts[1..]) == [Named([120])] + [];
  }
}
