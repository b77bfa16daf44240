/**
 Text handling: UTF-8 validity, identifier decoding and trimming, ASCII case folding.
 */
module Strings {
  import opened Base

  datatype Encoding = Iso9660 | Ucs2

  /** The path separator */
  const SLASH: byte := 47

  predicate Within(s: Text, at: nat, lo: byte, hi: byte) {
    at < |s| && lo <= s[at] <= hi
  }

  /** Length of the well-formed UTF-8 sequence that starts `s`, or 0 (Unicode table 3-7). */
  function CharLength(s: Text): (n: nat)
    requires s != []
    ensures n <= |s|
  {
    var b := s[0];
    if b < 0x80 then 1
    else if 0xC2 <= b < 0xE0 then
      if Within(s, 1, 0x80, 0xBF) then 2 else 0
    else if 0xE0 <= b < 0xF0 then
      if Within(s, 1, if b == 0xE0 then 0xA0 else 0x80, if b == 0xED then 0x9F else 0xBF)
         && Within(s, 2, 0x80, 0xBF) then 3 else 0
    else if 0xF0 <= b < 0xF5 then
      if Within(s, 1, if b == 0xF0 then 0x90 else 0x80, if b == 0xF4 then 0x8F else 0xBF)
         && Within(s, 2, 0x80, 0xBF) && Within(s, 3, 0x80, 0xBF) then 4 else 0
    else 0
  }

  /** `str::from_utf8` succeeds */
  predicate ValidUtf8(s: Text) {
    s == [] || (var n := CharLength(s); n > 0 && ValidUtf8(s[n..]))
  }

  lemma {:induction false} AsciiIsValid(s: Text)
    requires forall k :: 0 <= k < |s| ==> s[k] < 0x80
    ensures ValidUtf8(s)
  {
    if s != [] {
      AsciiIsValid(s[1..]);
    }
  }

  /** Length of the white-space character that ends `s`, or 0. */
  function SpaceLength(s: Text): (n: nat)
    ensures n <= |s|
  {
    var k := |s|;
    if k >= 1 && (9 <= s[k - 1] <= 13 || s[k - 1] == 32) then 1
    else if k >= 2 && s[k - 2] == 0xC2 && s[k - 1] in {0x85, 0xA0} then 2
    else if k >= 3 && s[k - 3] == 0xE1 && s[k - 2] == 0x9A && s[k - 1] == 0x80 then 3
    else if k >= 3 && s[k - 3] == 0xE2 && s[k - 2] == 0x80
            && (0x80 <= s[k - 1] <= 0x8A || s[k - 1] in {0xA8, 0xA9, 0xAF}) then 3
    else if k >= 3 && s[k - 3] == 0xE2 && s[k - 2] == 0x81 && s[k - 1] == 0x9F then 3
    else if k >= 3 && s[k - 3] == 0xE3 && s[k - 2] == 0x80 && s[k - 1] == 0x80 then 3
    else 0
  }

  /** `str::trim_end` */
  function TrimEnd(s: Text): (t: Text)
    ensures t <= s
  {
    var n := SpaceLength(s);
    if n == 0 then s else TrimEnd(s[..|s| - n])
  }

  lemma NothingToTrim(s: Text)
    requires s != [] && 0x20 < s[|s| - 1] < 0x80
    ensures TrimEnd(s) == s
  {
  }

  /** `trim_matches` with NUL */
  function TrimNuls(s: Text): (t: Text)
    ensures |t| <= |s|
    ensures |t| == |s| <==> t == s
    ensures t == s <==> s == [] || (s[0] != 0 && s[|s| - 1] != 0)
  {
    if s == [] then s
    else if s[0] == 0 then TrimNuls(s[1..])
    else if s[|s| - 1] == 0 then TrimNuls(s[..|s| - 1])
    else s
  }

  /** UTF-8 bytes of a code point */
  function Utf8Of(c: nat): Text
    requires c < 0x11_0000
  {
    var t0, t1, t2 := (0x80 + c % 0x40) as byte, (0x80 + c / 0x40 % 0x40) as byte, (0x80 + c / 0x1000 % 0x40) as byte;
    if c < 0x80 then [c as byte]
    else if c < 0x800 then [(0xC0 + c / 0x40) as byte, t0]
    else if c < 0x1_0000 then [(0xE0 + c / 0x1000) as byte, t1, t0]
    else [(0xF0 + c / 0x4_0000) as byte, t2, t1, t0]
  }

  function Unit(s: seq<byte>, at: nat, big: bool): u16
    requires at + 2 <= |s|
  {
    var a, b := s[at] as int, s[at + 1] as int;
    if big then 0x100 * a + b else a + 0x100 * b
  }

  /** UTF-16 to UTF-8; an unpaired surrogate or an odd byte is an encoding error. */
  function FromUtf16(s: seq<byte>, big: bool): Option<Text>
    decreases |s|
  {
    if s == [] then Some([])
    else if |s| < 2 then None
    else
      var hi := Unit(s, 0, big);
      if 0xD800 <= hi < 0xDC00 then
        if |s| < 4 || !(0xDC00 <= Unit(s, 2, big) < 0xE000) then None
        else
          match FromUtf16(s[4..], big)
          case None => None
          case Some(t) => Some(Utf8Of(0x1_0000 + (hi - 0xD800) * 0x400 + (Unit(s, 2, big) - 0xDC00)) + t)
      else if 0xDC00 <= hi < 0xE000 then None
      else
        match FromUtf16(s[2..], big)
        case None => None
        case Some(t) => Some(Utf8Of(hi) + t)
  }

  /** UTF-16BE decoding with byte-order-mark sniffing, as `encoding_rs` does it. */
  function DecodeUcs2(s: seq<byte>): Option<Text> {
    if |s| >= 3 && s[..3] == [0xEF, 0xBB, 0xBF] then
      if ValidUtf8(s[3..]) then Some(s[3..]) else None
    else if |s| >= 2 && s[..2] == [0xFE, 0xFF] then FromUtf16(s[2..], true)
    else if |s| >= 2 && s[..2] == [0xFF, 0xFE] then FromUtf16(s[2..], false)
    else FromUtf16(s, true)
  }

  /** `decode_string`: an encoding error is a parse error in ISO 9660 and a panic in UCS-2. */
  function Decode(enc: Encoding, s: seq<byte>): Result<Text> {
    match enc
    case Iso9660 => if ValidUtf8(s) then Ok(TrimEnd(s)) else Err(Nom)
    case Ucs2 =>
      match DecodeUcs2(s)
      case None => Err(Panic)
      case Some(t) => Ok(TrimEnd(t))
  }

  function LowerByte(b: byte): byte {
    if 65 <= b <= 90 then b + 32 else b
  }

  /** ASCII lower case, byte by byte */
  function Lower(s: Text): (t: Text)
    ensures |t| == |s|
    ensures forall k :: 0 <= k < |s| ==> t[k] == LowerByte(s[k])
  {
    seq(|s|, k requires 0 <= k < |s| => LowerByte(s[k]))
  }

  /** `eq_ignore_ascii_case` */
  predicate SameName(a: Text, b: Text) {
    Lower(a) == Lower(b)
  }
}
