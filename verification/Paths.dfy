/**
 Names and paths as a client spells them: what counts as the same name, and which segments a path has.
 */
module Paths {
  import opened Base
  import opened Strings
  import opened Lookup

  // ---- names ----

  /** The same letter of the ASCII alphabet, or the same byte */
  predicate SameLetter(a: byte, b: byte) {
    || a == b
    || (65 <= a <= 90 && b == a + 32)
    || (65 <= b <= 90 && a == b + 32)
  }

  /** Two names are the same exactly if they agree byte by byte, up to the case of the letters from A to Z. */
  lemma SameUpToCase(a: Text, b: Text)
    ensures SameName(a, b) <==> |a| == |b| && forall k :: 0 <= k < |a| ==> SameLetter(a[k], b[k])
  {
    if |a| == |b| {
      forall k | 0 <= k < |a|
        ensures Lower(a)[k] == Lower(b)[k] <==> SameLetter(a[k], b[k])
      {
      }
      assert (forall k :: 0 <= k < |a| ==> SameLetter(a[k], b[k])) ==> Lower(a) == Lower(b);
    } else {
      assert |Lower(a)| != |Lower(b)|;
    }
  }

  // ---- paths ----

  predicate HasSlash(s: Text) {
    exists k :: 0 <= k < |s| && s[k] == 47
  }

  /** What a path segment can be */
  predicate IsName(s: Text) {
    s != [] && !HasSlash(s)
  }

  lemma NothingSplit()
    ensures Split([]) == [[]] && NonEmpty([[]]) == [] && Segments([]) == []
  {
    assert NonEmpty([[]][1..]) == [];
  }

  /** A slash between two paths puts their segments one after the other. */
  lemma SegmentsCompose(p: Text, q: Text)
    ensures Segments(p + [47] + q) == Segments(p) + Segments(q)
  {
    SplitJoins(p, q);
    NonEmptyAppend(Split(p), Split(q));
  }

  /** Slashes at either end of a path, and double ones within it, do not count. */
  lemma SlashesDoNotCount(p: Text, q: Text)
    ensures Segments([47] + p) == Segments(p) == Segments(p + [47])
    ensures Segments(p + [47, 47] + q) == Segments(p + [47] + q)
  {
    NothingSplit();
    SegmentsCompose([], p);
    assert [] + [47] + p == [47] + p;
    SegmentsCompose(p, []);
    assert p + [47] + [] == p + [47];
    SegmentsCompose(p, [47] + q);
    assert p + [47] + ([47] + q) == p + [47, 47] + q;
    SegmentsCompose([], q);
    assert [] + [47] + q == [47] + q;
    SegmentsCompose(p, q);
  }

  lemma {:induction false} SplitAtSlashes(path: Text)
    ensures forall s :: s in Split(path) ==> !HasSlash(s)
    ensures !HasSlash(path) ==> Split(path) == [path]
  {
    if path != [] {
      SplitAtSlashes(path[1..]);
      var rest := Split(path[1..]);
      if path[0] != 47 {
        assert HasSlash(path[1..]) ==> HasSlash(path) by {
          if k :| 0 <= k < |path[1..]| && path[1..][k] == 47 {
            assert path[k + 1] == 47;
          }
        }
        assert [path[0]] + path[1..] == path;
        forall s | s in Split(path)
          ensures !HasSlash(s)
        {
          if s != Split(path)[0] {
            assert s in rest[1..];
          } else {
            assert rest[0] in rest;
          }
        }
      }
    }
  }

  lemma {:induction false} NonEmptyKeeps(ss: seq<Text>)
    ensures forall s :: s in NonEmpty(ss) <==> s in ss && s != []
  {
    if ss != [] {
      NonEmptyKeeps(ss[1..]);
      assert forall s :: s in ss <==> s == ss[0] || s in ss[1..];
    }
  }

  /** Every segment is a name that is not empty and has no slash in it, and such a name is its own only segment. */
  lemma SegmentsAreNames(path: Text)
    ensures forall s :: s in Segments(path) ==> IsName(s)
    ensures IsName(path) ==> Segments(path) == [path]
  {
    SplitAtSlashes(path);
    NonEmptyKeeps(Split(path));
    assert NonEmpty([path][1..]) == [];
  }

  /** The path of some names: each of them after a slash */
  function PathOf(names: seq<Text>): Text {
    if names == [] then [] else [47] + names[0] + PathOf(names[1..])
  }

  /** A path is read back as the names it is made of, whatever slashes are put in front of it and behind it. */
  lemma {:induction false} PathRoundTrip(names: seq<Text>)
    requires forall s :: s in names ==> IsName(s)
    ensures Segments(PathOf(names)) == names
    ensures Segments([47] + PathOf(names)) == names == Segments(PathOf(names) + [47])
  {
    SlashesDoNotCount(PathOf(names), []);
    if names == [] {
      NothingSplit();
    } else {
      var rest := PathOf(names[1..]);
      PathRoundTrip(names[1..]);
      SegmentsAreNames(names[0]);
      SlashesDoNotCount(names[0] + rest, []);
      assert [47] + names[0] + rest == [47] + (names[0] + rest);
      if names[1..] == [] {
        assert names[0] + rest == names[0];
      } else {
        var more := names[1] + PathOf(names[2..]);
        assert names[1..][0] == names[1] && names[1..][1..] == names[2..];
        assert rest == [47] + more;
        SegmentsCompose(names[0], more);
        assert names[0] + rest == names[0] + [47] + more;
        SlashesDoNotCount(more, []);
      }
      assert [names[0]] + names[1..] == names;
    }
  }
}
