/**
 File identifiers: the `;version` suffix and the trailing dot (section 7.5.1 of ECMA-119).
 */
module Identifier {
  import opened Base

  const SEMICOLON: byte := 59
  const DOT: byte := 46
  const PLUS: byte := 43

  function LastIndex(s: Text, c: byte): (k: Option<nat>)
    ensures k.Some? ==> k.value < |s| && s[k.value] == c && c !in s[k.value + 1..]
    ensures k.None? ==> c !in s
  {
    if s == [] then None
    else if s[|s| - 1] == c then Some(|s| - 1)
    else
      var k := LastIndex(s[..|s| - 1], c);
      assert forall j :: 0 <= j < |s| - 1 ==> s[j] == s[..|s| - 1][j];
      assert k.Some? ==> s[k.value + 1..] == s[..|s| - 1][k.value + 1..] + [s[|s| - 1]];
      k
  }

  predicate AllDigits(s: Text) {
    forall k :: 0 <= k < |s| ==> 48 <= s[k] <= 57
  }

  function Number(s: Text): nat
    requires AllDigits(s)
  {
    if s == [] then 0 else 10 * Number(s[..|s| - 1]) + (s[|s| - 1] - 48) as int
  }

  /** `u16::from_str`: an optional plus sign, at least one digit, no overflow */
  function ParseU16(s: Text): Option<u16> {
    var digits := if s != [] && s[0] == PLUS then s[1..] else s;
    if digits == [] || !AllDigits(digits) || Number(digits) > 0xFFFF then None else Some(Number(digits))
  }

  function DropDot(s: Text): Text {
    if s != [] && s[|s| - 1] == DOT then s[..|s| - 1] else s
  }

  /** Name and version of an identifier; the version is 1 when there is no `;`. */
  function SplitVersion(id: Text): Result<(Text, u16)> {
    match LastIndex(id, SEMICOLON)
    case None => Ok((DropDot(id), 1))
    case Some(k) =>
      match ParseU16(id[k + 1..])
      case None => Err(ParseInt)
      case Some(v) => Ok((DropDot(id[..k]), v))
  }

  /** `ISOFile::new`: finds the last `;`, truncates the identifier there and pops a final dot. */
  method TakeVersion(id: Text) returns (r: Result<(Text, u16)>)
    ensures r == SplitVersion(id)
  {
    var identifier, version, k := id, 1, |id|;
    while k > 0 && identifier[k - 1] != SEMICOLON
      invariant 0 <= k <= |id| && identifier == id
      invariant LastIndex(id, SEMICOLON) == LastIndex(id[..k], SEMICOLON)
    {
      assert id[..k][..k - 1] == id[..k - 1];
      k := k - 1;
    }
    if k > 0 {
      assert LastIndex(id[..k], SEMICOLON) == Some(k - 1);
      var v := ParseU16(identifier[k..]);
      if v.None? {
        return Err(ParseInt);
      }
      version := v.value;
      identifier := identifier[..k - 1];
    }
    if identifier != [] && identifier[|identifier| - 1] == DOT {
      identifier := identifier[..|identifier| - 1];
    }
    return Ok((identifier, version));
  }

  function Decimal(n: nat): (s: Text)
    ensures s != [] && AllDigits(s) && Number(s) == n
  {
    if n < 10 then
      var s := [48 + n as byte];
      assert s[..|s| - 1] == [];
      s
    else
      var s := Decimal(n / 10) + [48 + (n % 10) as byte];
      assert s[..|s| - 1] == Decimal(n / 10);
      s
  }

  lemma {:induction false} LastIndexOfSuffix(base: Text, suffix: Text)
    requires SEMICOLON !in suffix
    ensures LastIndex(base + [SEMICOLON] + suffix, SEMICOLON) == Some(|base|)
  {
    var s, n := base + [SEMICOLON] + suffix, |suffix|;
    if n > 0 {
      assert s[|s| - 1] == suffix[n - 1];
      assert s[..|s| - 1] == base + [SEMICOLON] + suffix[..n - 1];
      LastIndexOfSuffix(base, suffix[..n - 1]);
    }
  }

  /**
   * For every base name, also one that contains ';', and every version: the identifier is read
   * back as that version and the base less at most one final dot.
   */
  lemma VersionRoundTrip(base: Text, version: u16)
    ensures SplitVersion(base + [SEMICOLON] + Decimal(version)) == Ok((DropDot(base), version))
  {
    var digits := Decimal(version);
    var id := base + [SEMICOLON] + digits;
    assert SEMICOLON !in digits;
    LastIndexOfSuffix(base, digits);
    assert id[|base| + 1..] == digits && id[..|base|] == base;
    assert digits[0] != PLUS;
  }

  /** At least one digit from "0" to "9", and no more than 65535 */
  predicate Spells(digits: Text, v: nat) {
    && digits != [] && (forall k :: 0 <= k < |digits| ==> 48 <= digits[k] <= 57)
    && Number(digits) == v <= 65535
  }

  /** A version is a decimal number below 65536, leading zeros allowed, and maybe a "+" in front of it. */
  lemma VersionsAccepted(s: Text, v: u16)
    ensures ParseU16(s) == Some(v) <==> Spells(s, v) || (s != [] && s[0] == 43 && Spells(s[1..], v))
    ensures ParseU16(Decimal(v)) == Some(v) == ParseU16([43] + Decimal(v))
  {
    assert ([43] + Decimal(v))[1..] == Decimal(v) && Decimal(v)[0] != 43;
  }

  /** A name with a ';' that no version number follows is rejected, Rock Ridge names included. */
  lemma SemicolonNeedsVersion(base: Text, suffix: Text)
    requires SEMICOLON !in suffix
    ensures SplitVersion(base + [SEMICOLON] + suffix).Ok? <==> ParseU16(suffix).Some?
  {
    LastIndexOfSuffix(base, suffix);
    var id := base + [SEMICOLON] + suffix;
    assert id[|base| + 1..] == suffix && id[..|base|] == base;
  }
}
