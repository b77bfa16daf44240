/**
 What the text functions mean in terms of code points: UTF-8 validity, UTF-16 decoding, and trimming.
 */
module Unicode {
  import opened Base
  import opened Strings

  /** A Unicode scalar value: a code point that is no surrogate */
  predicate Scalar(c: nat) {
    c < 0xD800 || 0xE000 <= c < 0x11_0000
  }

  predicate Scalars(cs: seq<nat>) {
    forall k :: 0 <= k < |cs| ==> Scalar(cs[k])
  }

  /** The bytes that encode a code point in UTF-8, by their payload bits: the shortest form that has room */
  ghost predicate Encodes(u: Text, c: nat) {
    match |u|
    case 1 => c < 0x80 && u[0] as int == c
    case 2 => 0x80 <= c < 0x800 && u[0] as int / 32 == 6 && Tail(u, 1) && u[0] as int % 32 * 64 + Low(u, 1) == c
    case 3 =>
      && 0x800 <= c < 0x1_0000 && u[0] as int / 16 == 14 && Tail(u, 1) && Tail(u, 2)
      && u[0] as int % 16 * 4096 + Low(u, 1) * 64 + Low(u, 2) == c
    case 4 =>
      && 0x1_0000 <= c < 0x11_0000 && u[0] as int / 8 == 30 && Tail(u, 1) && Tail(u, 2) && Tail(u, 3)
      && u[0] as int % 8 * 0x4_0000 + Low(u, 1) * 4096 + Low(u, 2) * 64 + Low(u, 3) == c
    case _ => false
  }

  /** A continuation byte: its upper bits are 10 */
  predicate Tail(u: Text, k: nat) {
    k < |u| && u[k] as int / 64 == 2
  }

  function Low(u: Text, k: nat): nat {
    if k < |u| then u[k] as int % 64 else 0
  }

  lemma TwoBytesEncode(c: nat)
    requires 0x80 <= c < 0x800
    ensures Encodes(Utf8Of(c), c)
  {
  }

  lemma ThreeBytesEncode(c: nat)
    requires 0x800 <= c < 0x1_0000
    ensures Encodes(Utf8Of(c), c)
  {
    var c1 := c / 0x40;
    assert c1 / 0x40 == c / 0x1000;
  }

  lemma FourBytesEncode(c: nat)
    requires 0x1_0000 <= c < 0x11_0000
    ensures Encodes(Utf8Of(c), c)
  {
    var c1 := c / 0x40;
    var c2 := c1 / 0x40;
    assert c2 == c / 0x1000 && c2 / 0x40 == c / 0x4_0000;
  }

  lemma Utf8OfEncodes(c: nat)
    requires c < 0x11_0000
    ensures Encodes(Utf8Of(c), c)
  {
    if c >= 0x1_0000 {
      FourBytesEncode(c);
    } else if c >= 0x800 {
      ThreeBytesEncode(c);
    } else if c >= 0x80 {
      TwoBytesEncode(c);
    }
  }

  lemma ThreeBytesAreScalar(s: Text, u: Text)
    requires |u| == 3 && u <= s && CharLength(s) == 3
    ensures Scalar(Value(u)) && Encodes(u, Value(u))
  {
  }

  lemma FourBytesAreScalar(s: Text, u: Text)
    requires |u| == 4 && u <= s && CharLength(s) == 4
    ensures Scalar(Value(u)) && Encodes(u, Value(u))
  {
  }

  lemma FewBytesAreScalar(s: Text, u: Text)
    requires 0 < |u| < 3 && u <= s && CharLength(s) == |u|
    ensures Scalar(Value(u)) && Encodes(u, Value(u))
  {
  }

  lemma CharIsScalar(s: Text, u: Text)
    requires u != [] && u <= s && CharLength(s) == |u|
    ensures Scalar(Value(u)) && Encodes(u, Value(u))
  {
    if |u| == 4 {
      FourBytesAreScalar(s, u);
    } else if |u| == 3 {
      ThreeBytesAreScalar(s, u);
    } else {
      FewBytesAreScalar(s, u);
    }
  }

  lemma ScalarIsChar(s: Text, u: Text, c: nat)
    requires u <= s && Scalar(c) && Encodes(u, c)
    ensures s != [] && CharLength(s) == |u|
  {
  }

  /** A text starts with a character of some length exactly if a scalar value is encoded there. */
  lemma CharStarts(s: Text, n: nat)
    requires 0 < n <= |s|
    ensures CharLength(s) == n <==> exists c :: Scalar(c) && Encodes(s[..n], c)
  {
    hide CharLength, Encodes, Scalar, Value;
    var u := s[..n];
    if CharLength(s) == n {
      CharIsScalar(s, u);
    }
    if c :| Scalar(c) && Encodes(u, c) {
      ScalarIsChar(s, u, c);
    }
  }

  function Value(u: Text): nat
    requires 0 < |u| <= 4
  {
    var b := u[0] as int;
    match |u|
    case 1 => b
    case 2 => b % 32 * 64 + Low(u, 1)
    case 3 => b % 16 * 4096 + Low(u, 1) * 64 + Low(u, 2)
    case _ => b % 8 * 0x4_0000 + Low(u, 1) * 4096 + Low(u, 2) * 64 + Low(u, 3)
  }

  lemma LastBits(a: nat, b: nat)
    requires b < 64
    ensures (a * 64 + b) / 64 == a && (a * 64 + b) % 64 == b
  {
  }

  lemma TwoBytesOnce(u: Text, c: nat)
    requires |u| == 2 && Encodes(u, c)
    ensures u == Utf8Of(c)
  {
    LastBits(u[0] as int % 32, Low(u, 1));
  }

  lemma ThreeBytesOnce(u: Text, c: nat)
    requires |u| == 3 && Encodes(u, c)
    ensures u == Utf8Of(c)
  {
    var b := u[0] as int % 16;
    LastBits(b, Low(u, 1));
    LastBits(b * 64 + Low(u, 1), Low(u, 2));
    assert c / 0x1000 == c / 64 / 64;
  }

  lemma FourBytesOnce(u: Text, c: nat)
    requires |u| == 4 && Encodes(u, c)
    ensures u == Utf8Of(c)
  {
    var b := u[0] as int % 8;
    LastBits(b, Low(u, 1));
    LastBits(b * 64 + Low(u, 1), Low(u, 2));
    LastBits((b * 64 + Low(u, 1)) * 64 + Low(u, 2), Low(u, 3));
    assert c / 0x1000 == c / 64 / 64 && c / 0x4_0000 == c / 64 / 64 / 64;
  }

  /** There is one encoding of a code point. */
  lemma EncodedOnce(u: Text, c: nat)
    requires c < 0x11_0000 && Encodes(u, c)
    ensures u == Utf8Of(c)
  {
    match |u| {
      case 2 => TwoBytesOnce(u, c);
      case 3 => ThreeBytesOnce(u, c);
      case 4 => FourBytesOnce(u, c);
      case _ =>
    }
  }

  /** The text of some code points */
  function Utf8Text(cs: seq<nat>): Text
    requires Scalars(cs)
  {
    if cs == [] then [] else Utf8Of(cs[0]) + Utf8Text(cs[1..])
  }

  lemma {:induction false} Utf8TextIsValid(cs: seq<nat>)
    requires Scalars(cs)
    ensures ValidUtf8(Utf8Text(cs))
  {
    hide Utf8Of, CharLength, Encodes;
    if cs != [] {
      var s, u := Utf8Text(cs), Utf8Of(cs[0]);
      Utf8OfEncodes(cs[0]);
      EncodesSomething(u, cs[0]);
      assert s[..|u|] == u && s[|u|..] == Utf8Text(cs[1..]);
      CharStarts(s, |u|);
      Utf8TextIsValid(cs[1..]);
    }
  }

  lemma EncodesSomething(u: Text, c: nat)
    requires Encodes(u, c)
    ensures u != []
  {
  }

  lemma {:induction false} ValidIsUtf8Text(s: Text) returns (cs: seq<nat>)
    requires ValidUtf8(s)
    ensures Scalars(cs) && s == Utf8Text(cs)
    decreases |s|
  {
    hide CharLength, Encodes, Utf8Of;
    if s == [] {
      cs := [];
    } else {
      var n := CharLength(s);
      CharStarts(s, n);
      var c :| Scalar(c) && Encodes(s[..n], c);
      EncodedOnce(s[..n], c);
      var rest := ValidIsUtf8Text(s[n..]);
      cs := [c] + rest;
      assert cs[1..] == rest && s == s[..n] + s[n..];
    }
  }

  /** The bytes that `str::from_utf8` accepts are the texts of scalar values, and no others. */
  lemma ValidIffUtf8Text(s: Text)
    ensures ValidUtf8(s) <==> exists cs :: Scalars(cs) && s == Utf8Text(cs)
  {
    if ValidUtf8(s) {
      var cs := ValidIsUtf8Text(s);
    }
    if cs :| Scalars(cs) && s == Utf8Text(cs) {
      Utf8TextIsValid(cs);
    }
  }

  // ---- UTF-16 ----

  function UnitBytes(u: u16, big: bool): (s: seq<byte>)
    ensures |s| == 2
  {
    var high, low := (u / 0x100) as byte, (u % 0x100) as byte;
    if big then [high, low] else [low, high]
  }

  /** One unit, or a surrogate pair */
  function Utf16Of(c: nat, big: bool): (s: seq<byte>)
    requires Scalar(c)
    ensures |s| == if c < 0x1_0000 then 2 else 4
  {
    if c < 0x1_0000 then UnitBytes(c, big)
    else UnitBytes(0xD800 + (c - 0x1_0000) / 0x400, big) + UnitBytes(0xDC00 + (c - 0x1_0000) % 0x400, big)
  }

  function Utf16Text(cs: seq<nat>, big: bool): seq<byte>
    requires Scalars(cs)
  {
    if cs == [] then [] else Utf16Of(cs[0], big) + Utf16Text(cs[1..], big)
  }

  lemma UnitReadsBack(s: seq<byte>, at: nat, u: u16, big: bool)
    requires at + 2 <= |s| && s[at..at + 2] == UnitBytes(u, big)
    ensures Unit(s, at, big) == u
  {
    assert s[at] == s[at..at + 2][0] && s[at + 1] == s[at..at + 2][1];
  }

  lemma UnitPrintsBack(s: seq<byte>, at: nat, big: bool)
    requires at + 2 <= |s|
    ensures s[at..at + 2] == UnitBytes(Unit(s, at, big), big)
  {
  }

  /** One character in front */
  lemma FromUtf16First(c: nat, rest: seq<byte>, big: bool)
    requires Scalar(c)
    ensures FromUtf16(Utf16Of(c, big) + rest, big) ==
              match FromUtf16(rest, big)
              case None => None
              case Some(t) => Some(Utf8Of(c) + t)
  {
    hide UnitBytes, Unit, Utf8Of;
    var s := Utf16Of(c, big) + rest;
    if c < 0x1_0000 {
      assert s[0..2] == UnitBytes(c, big) && s[2..] == rest;
      UnitReadsBack(s, 0, c, big);
    } else {
      var d := c - 0x1_0000;
      assert s[0..2] == UnitBytes(0xD800 + d / 0x400, big) && s[2..4] == UnitBytes(0xDC00 + d % 0x400, big);
      assert s[4..] == rest;
      UnitReadsBack(s, 0, 0xD800 + d / 0x400, big);
      UnitReadsBack(s, 2, 0xDC00 + d % 0x400, big);
    }
  }

  lemma {:induction false} Utf16RoundTrip(cs: seq<nat>, big: bool)
    requires Scalars(cs)
    ensures FromUtf16(Utf16Text(cs, big), big) == Some(Utf8Text(cs))
  {
    hide Utf16Of, Utf8Of;
    if cs == [] {
      assert Utf16Text(cs, big) == [];
    } else {
      Utf16RoundTrip(cs[1..], big);
      FromUtf16First(cs[0], Utf16Text(cs[1..], big), big);
    }
  }

  lemma {:induction false} FromUtf16IsText(s: seq<byte>, big: bool) returns (cs: seq<nat>)
    requires FromUtf16(s, big).Some?
    ensures Scalars(cs) && s == Utf16Text(cs, big)
    decreases |s|
  {
    hide Utf8Of, UnitBytes, Unit;
    if s == [] {
      cs := [];
    } else {
      var hi: nat := Unit(s, 0, big);
      UnitPrintsBack(s, 0, big);
      if 0xD800 <= hi < 0xDC00 {
        var lo: nat := Unit(s, 2, big);
        UnitPrintsBack(s, 2, big);
        var c := 0x1_0000 + (hi - 0xD800) * 0x400 + (lo - 0xDC00);
        assert (c - 0x1_0000) / 0x400 == hi - 0xD800 && (c - 0x1_0000) % 0x400 == lo - 0xDC00;
        var rest := FromUtf16IsText(s[4..], big);
        cs := [c] + rest;
        assert cs[1..] == rest && s == s[0..2] + s[2..4] + s[4..];
      } else {
        var rest := FromUtf16IsText(s[2..], big);
        cs := [hi] + rest;
        assert cs[1..] == rest && s == s[0..2] + s[2..];
      }
    }
  }

  /** UTF-16 decodes exactly where it spells scalar values, and to the text of these. */
  lemma Utf16Decodes(s: seq<byte>, big: bool, t: Text)
    ensures FromUtf16(s, big) == Some(t) <==>
              exists cs :: Scalars(cs) && s == Utf16Text(cs, big) && t == Utf8Text(cs)
  {
    if FromUtf16(s, big) == Some(t) {
      var cs := FromUtf16IsText(s, big);
      Utf16RoundTrip(cs, big);
    }
    if cs :| Scalars(cs) && s == Utf16Text(cs, big) && t == Utf8Text(cs) {
      Utf16RoundTrip(cs, big);
    }
  }

  /** The bytes start like a byte order mark, in UTF-16 of either order or in UTF-8. */
  predicate StartsMarked(s: seq<byte>) {
    || (|s| >= 2 && s[0] == 0xFE && s[1] == 0xFF)
    || (|s| >= 2 && s[0] == 0xFF && s[1] == 0xFE)
    || (|s| >= 3 && s[0] == 0xEF && s[1] == 0xBB && s[2] == 0xBF)
  }

  /**
   * What Joliet texts stand for: big-endian UTF-16, unless a byte order mark says that the rest is
   * UTF-16 of its order or UTF-8.
   */
  lemma Ucs2Texts(cs: seq<nat>)
    requires Scalars(cs)
    ensures !StartsMarked(Utf16Text(cs, true)) ==> DecodeUcs2(Utf16Text(cs, true)) == Some(Utf8Text(cs))
    ensures DecodeUcs2([0xFE, 0xFF] + Utf16Text(cs, true)) == Some(Utf8Text(cs))
    ensures DecodeUcs2([0xFF, 0xFE] + Utf16Text(cs, false)) == Some(Utf8Text(cs))
    ensures DecodeUcs2([0xEF, 0xBB, 0xBF] + Utf8Text(cs)) == Some(Utf8Text(cs))
  {
    hide Utf16Text, Utf8Text, FromUtf16, ValidUtf8;
    Utf16RoundTrip(cs, true);
    Utf16RoundTrip(cs, false);
    Utf8TextIsValid(cs);
    var big, little, utf8 := [0xFE, 0xFF] + Utf16Text(cs, true), [0xFF, 0xFE] + Utf16Text(cs, false),
                             [0xEF, 0xBB, 0xBF] + Utf8Text(cs);
    assert big[..2] == [0xFE, 0xFF] && big[2..] == Utf16Text(cs, true);
    assert little[..2] == [0xFF, 0xFE] && little[2..] == Utf16Text(cs, false);
    assert utf8[..3] == [0xEF, 0xBB, 0xBF] && utf8[3..] == Utf8Text(cs);
    var s := Utf16Text(cs, true);
    assert |s| >= 2 ==> s[..2][0] == s[0] && s[..2][1] == s[1];
    assert |s| >= 3 ==> s[..3][0] == s[0] && s[..3][1] == s[1] && s[..3][2] == s[2];
    assert |big| >= 3 ==> big[..3][0] == 0xFE;
    assert |little| >= 3 ==> little[..3][0] == 0xFF;
  }

  /** What identifiers and descriptor texts are read as, in either encoding */
  lemma TextsDecode(cs: seq<nat>)
    requires Scalars(cs)
    ensures Decode(Iso9660, Utf8Text(cs)) == Ok(TrimEnd(Utf8Text(cs)))
    ensures !StartsMarked(Utf16Text(cs, true)) ==> Decode(Ucs2, Utf16Text(cs, true)) == Ok(TrimEnd(Utf8Text(cs)))
  {
    hide DecodeUcs2, Utf8Text, Utf16Text, StartsMarked, TrimEnd, ValidUtf8;
    Utf8TextIsValid(cs);
    Ucs2Texts(cs);
  }

  /** Bytes that are no text are an error in ISO 9660 encoding and make the reader panic in UCS-2. */
  lemma OtherBytesDoNotDecode(s: seq<byte>)
    ensures (forall cs :: Scalars(cs) ==> s != Utf8Text(cs)) ==> Decode(Iso9660, s) == Err(Nom)
    ensures !StartsMarked(s) && (forall cs :: Scalars(cs) ==> s != Utf16Text(cs, true)) ==>
              Decode(Ucs2, s) == Err(Panic)
  {
    hide Utf8Text, Utf16Text, ValidUtf8, FromUtf16;
    ValidIffUtf8Text(s);
    if FromUtf16(s, true).Some? {
      var cs := FromUtf16IsText(s, true);
    }
    assert |s| >= 2 ==> s[..2][0] == s[0] && s[..2][1] == s[1];
    assert |s| >= 3 ==> s[..3][0] == s[0] && s[..3][1] == s[1] && s[..3][2] == s[2];
  }

  // ---- trimming ----

  /** The property White_Space of Unicode */
  predicate WhiteSpace(c: nat) {
    || 9 <= c <= 13 || c == 32 || c == 0x85 || c == 0xA0 || c == 0x1680 || 0x2000 <= c <= 0x200A
    || c == 0x2028 || c == 0x2029 || c == 0x202F || c == 0x205F || c == 0x3000
  }

  lemma LongSpaceAtEnd(s: Text, u: Text)
    requires |u| == 3 && |u| <= |s| && u == s[|s| - 3..] && SpaceLength(s) == 3
    ensures WhiteSpace(Value(u)) && Encodes(u, Value(u))
  {
    assert u[0] == s[|s| - 3] && u[1] == s[|s| - 2] && u[2] == s[|s| - 1];
  }

  lemma SpaceAtEnd(s: Text, u: Text)
    requires u != [] && |u| <= |s| && u == s[|s| - |u|..] && SpaceLength(s) == |u|
    ensures WhiteSpace(Value(u)) && Encodes(u, Value(u))
  {
    if |u| == 3 {
      LongSpaceAtEnd(s, u);
    } else if |u| == 2 {
      assert u[0] == s[|s| - 2] && u[1] == s[|s| - 1];
    } else {
      assert |u| == 1 && u[0] == s[|s| - 1];
    }
  }

  lemma SpaceIsSeen(s: Text, u: Text, c: nat)
    requires |u| <= |s| && u == s[|s| - |u|..] && WhiteSpace(c) && Encodes(u, c)
    ensures SpaceLength(s) == |u|
  {
    assert forall j :: 0 <= j < |u| ==> u[j] == s[|s| - |u| + j];
  }

  lemma WhiteSpaceIsScalar(cs: seq<nat>)
    requires forall k :: 0 <= k < |cs| ==> WhiteSpace(cs[k])
    ensures Scalars(cs)
  {
  }

  /** A text ends with a white-space character of some length exactly if one is encoded there. */
  lemma EndsInSpace(s: Text, n: nat)
    requires 0 < n <= |s|
    ensures SpaceLength(s) == n <==> exists c :: WhiteSpace(c) && s[|s| - n..] == Utf8Of(c)
  {
    hide SpaceLength, Utf8Of, Encodes, Value;
    var u := s[|s| - n..];
    if SpaceLength(s) == n {
      SpaceAtEnd(s, u);
      WhiteSpaceIsScalar([Value(u)]);
      EncodedOnce(u, Value(u));
    }
    if c :| WhiteSpace(c) && u == Utf8Of(c) {
      Utf8OfEncodes(c);
      SpaceIsSeen(s, u, c);
    }
  }

  /** Trimming takes white space off the end, all of it and nothing else. */
  lemma {:induction false} TrimEndTrims(s: Text) returns (cs: seq<nat>)
    ensures Scalars(cs) && (forall k :: 0 <= k < |cs| ==> WhiteSpace(cs[k])) && s == TrimEnd(s) + Utf8Text(cs)
    ensures forall c, t :: WhiteSpace(c) ==> TrimEnd(s) != t + Utf8Of(c)
    decreases |s|
  {
    hide Utf8Of, SpaceLength;
    var n := SpaceLength(s);
    if n == 0 {
      cs := [];
      forall c, t | WhiteSpace(c)
        ensures s != t + Utf8Of(c)
      {
        if s == t + Utf8Of(c) {
          Utf8OfEncodes(c);
          EncodesSomething(Utf8Of(c), c);
          assert s[|s| - |Utf8Of(c)|..] == Utf8Of(c);
          EndsInSpace(s, |Utf8Of(c)|);
        }
      }
    } else {
      EndsInSpace(s, n);
      var c :| WhiteSpace(c) && s[|s| - n..] == Utf8Of(c);
      var rest := TrimEndTrims(s[..|s| - n]);
      cs := rest + [c];
      Utf8TextAppend(rest, c);
      assert s == s[..|s| - n] + s[|s| - n..];
    }
  }

  lemma {:induction false} Utf8TextAppend(cs: seq<nat>, c: nat)
    requires Scalars(cs) && Scalar(c)
    ensures Scalars(cs + [c]) && Utf8Text(cs + [c]) == Utf8Text(cs) + Utf8Of(c)
  {
    hide Utf8Of;
    var all := cs + [c];
    if cs == [] {
      assert all[1..] == [] && Utf8Text(all[1..]) == [];
    } else {
      assert all[0] == cs[0] && all[1..] == cs[1..] + [c];
      Utf8TextAppend(cs[1..], c);
    }
  }

  /** Trimming NULs takes NULs off both ends, all of them, and leaves the rest as it is. */
  lemma {:induction false} TrimNulsTrims(s: Text) returns (a: nat, b: nat)
    ensures a + b <= |s| && TrimNuls(s) == s[a..|s| - b]
    ensures forall k :: 0 <= k < a || |s| - b <= k < |s| ==> s[k] == 0
    ensures TrimNuls(s) != [] ==> TrimNuls(s)[0] != 0 && Last(TrimNuls(s)) != 0
    decreases |s|
  {
    a, b := 0, 0;
    if s != [] && s[0] == 0 {
      a, b := TrimNulsTrims(s[1..]);
      assert forall k :: 1 <= k < |s| ==> s[k] == s[1..][k - 1];
      a := a + 1;
    } else if s != [] && s[|s| - 1] == 0 {
      a, b := TrimNulsTrims(s[..|s| - 1]);
      assert forall k :: 0 <= k < |s| - 1 ==> s[k] == s[..|s| - 1][k];
      b := b + 1;
    }
  }
}
