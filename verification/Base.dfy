/**
 Bytes, machine integers, results and the few parser combinators the reader is built from.
 */
module Base {

  newtype byte = x: int | 0 <= x < 0x100
  type u16 = x: int | 0 <= x < 0x1_0000
  type u32 = x: int | 0 <= x < 0x1_0000_0000
  type i64 = x: int | -0x8000_0000_0000_0000 <= x < 0x8000_0000_0000_0000

  /** A Rust `String`: its UTF-8 bytes. */
  type Text = seq<byte>

  /** `BLOCK_SIZE` */
  const BLOCK: nat := 2048

  datatype Option<+T> = None | Some(value: T)

  /** The error variants an operation can report; `Panic` is an unwinding panic. */
  datatype Failure = Io | ReadSize(count: nat) | Nom | ParseInt | InvalidFs | InvalidSeek | Panic

  datatype Result<+T> = Ok(value: T) | Err(error: Failure)

  /** A parser's answer: a value and the rest of the input, a recoverable error, or a panic. */
  datatype Parse<+T> = Done(value: T, rest: seq<byte>) | Fail | Panicked {
    predicate IsFailure() {
      !Done?
    }

    function PropagateFailure<U>(): Parse<U>
      requires IsFailure()
    {
      if Fail? then Fail else Panicked
    }

    function Extract(): (T, seq<byte>)
      requires Done?
    {
      (value, rest)
    }
  }

  function Min(a: int, b: int): int {
    if a <= b then a else b
  }

  function Max(a: int, b: int): int {
    if a <= b then b else a
  }

  function Init<T>(s: seq<T>): seq<T>
    requires s != []
  {
    s[..|s| - 1]
  }

  function Last<T>(s: seq<T>): T
    requires s != []
  {
    s[|s| - 1]
  }

  function Map<S, T>(f: S -> T, xs: seq<S>): (ys: seq<T>)
    ensures |ys| == |xs| && forall k :: 0 <= k < |xs| ==> ys[k] == f(xs[k])
  {
    if xs == [] then [] else Map(f, Init(xs)) + [f(Last(xs))]
  }

  /** Bit `k` (given as its weight) of a flag byte. */
  predicate Bit(flags: nat, weight: nat)
    requires weight > 0
  {
    flags / weight % 2 == 1
  }

  function Zeros(n: nat): (z: seq<byte>)
    ensures |z| == n && forall k :: 0 <= k < n ==> z[k] == 0
  {
    seq(n, _ => 0)
  }

  // ---- both-endian integers (the little-endian half is the one that is read) ----

  function LE16(s: seq<byte>, at: nat): u16
    requires at + 2 <= |s|
  {
    s[at] as int + 0x100 * (s[at + 1] as int)
  }

  function LE32(s: seq<byte>, at: nat): u32
    requires at + 4 <= |s|
  {
    s[at] as int + 0x100 * (s[at + 1] as int) + 0x1_0000 * (s[at + 2] as int) + 0x100_0000 * (s[at + 3] as int)
  }

  function Print16(n: u16): (s: seq<byte>)
    ensures |s| == 4
  {
    var b0, b1 := (n % 0x100) as byte, (n / 0x100) as byte;
    [b0, b1, b1, b0]
  }

  function Print32(n: u32): (s: seq<byte>)
    ensures |s| == 8
  {
    var b0, b1 := (n % 0x100) as byte, (n / 0x100 % 0x100) as byte;
    var b2, b3 := (n / 0x1_0000 % 0x100) as byte, (n / 0x100_0000) as byte;
    [b0, b1, b2, b3, b3, b2, b1, b0]
  }

  lemma BytesOfWord(n: u32)
    ensures n % 0x100 + 0x100 * (n / 0x100 % 0x100) + 0x1_0000 * (n / 0x1_0000 % 0x100)
          + 0x100_0000 * (n / 0x100_0000) == n
  {
    var a := n / 0x100;
    var b := a / 0x100;
    assert b == n / 0x1_0000 && b / 0x100 == n / 0x100_0000;
  }

  /** A both-endian number is read back wherever it was printed. */
  lemma Print32ReadsBack(s: seq<byte>, at: nat, n: u32)
    requires at + 8 <= |s| && s[at..at + 8] == Print32(n)
    ensures LE32(s, at) == n
  {
    var p := s[at..at + 8];
    assert s[at] == p[0] && s[at + 1] == p[1] && s[at + 2] == p[2] && s[at + 3] == p[3];
    BytesOfWord(n);
  }

  lemma Print16ReadsBack(s: seq<byte>, at: nat, n: u16)
    requires at + 4 <= |s| && s[at..at + 4] == Print16(n)
    ensures LE16(s, at) == n
  {
    assert s[at..at + 4][0] == Print16(n)[0] && s[at..at + 4][1] == Print16(n)[1];
  }

  function PrintWords(ws: seq<u32>): (s: seq<byte>)
    ensures |s| == 8 * |ws|
  {
    if ws == [] then [] else Print32(ws[0]) + PrintWords(ws[1..])
  }

  lemma {:induction false} WordAt(ws: seq<u32>, k: nat)
    requires k < |ws|
    ensures PrintWords(ws)[8 * k..8 * k + 8] == Print32(ws[k])
  {
    hide Print32;
    var s, rest := PrintWords(ws), PrintWords(ws[1..]);
    if k > 0 {
      WordAt(ws[1..], k - 1);
      assert s[8 * k..8 * k + 8] == rest[8 * (k - 1)..8 * (k - 1) + 8];
    }
  }

  lemma WordReadsBack(ws: seq<u32>, k: nat)
    requires k < |ws|
    ensures LE32(PrintWords(ws), 8 * k) == ws[k]
  {
    hide Print32, LE32;
    WordAt(ws, k);
    Print32ReadsBack(PrintWords(ws), 8 * k, ws[k]);
  }

  // ---- repetition: nom's `many0` and `many1` ----

  function Many<T>(p: seq<byte> -> Parse<T>, i: seq<byte>): Parse<seq<T>>
    decreases |i|
  {
    match p(i)
    case Fail => Done([], i)
    case Panicked => Panicked
    case Done(x, rest) =>
      if |rest| >= |i| then Fail
      else
        var (xs, end) :- Many(p, rest);
        Done([x] + xs, end)
  }

  function Many1<T>(p: seq<byte> -> Parse<T>, i: seq<byte>): Parse<seq<T>> {
    var (x, rest) :- p(i);
    var (xs, end) :- Many(p, rest);
    Done([x] + xs, end)
  }

  function Flatten<T>(ss: seq<seq<T>>): seq<T> {
    if ss == [] then [] else ss[0] + Flatten(ss[1..])
  }

  function PrintAll<T>(write: T -> seq<byte>, xs: seq<T>): (s: seq<byte>) {
    if xs == [] then [] else write(xs[0]) + PrintAll(write, xs[1..])
  }

  /** `p` reads back the value of `x`, before any further input, from what `write` writes for `x`. */
  ghost predicate Inverts<W, T>(p: seq<byte> -> Parse<T>, write: W -> seq<byte>, value: W -> T, x: W) {
    && |write(x)| > 0
    && forall t: seq<byte> :: p(write(x) + t) == Done(value(x), t)
  }

  lemma OneMoreInverts<W, T>(
      p: seq<byte> -> Parse<T>, write: W -> seq<byte>, value: W -> T, x: W, more: seq<byte>, tail: seq<byte>)
    requires Inverts(p, write, value, x) && Many(p, more).Done? && Many(p, more).rest == tail
    ensures Many(p, write(x) + more) == Done([value(x)] + Many(p, more).value, tail)
    ensures Many1(p, write(x) + more) == Many(p, write(x) + more)
  {
    var all := write(x) + more;
    assert p(all) == Done(value(x), more) && |all| > |more|;
  }

  /** Repetition inverts printing a list, when the parser stops at what follows. */
  lemma {:induction false} ManyInverts<W, T>(
      p: seq<byte> -> Parse<T>, write: W -> seq<byte>, value: W -> T, xs: seq<W>, tail: seq<byte>)
    requires forall x :: x in xs ==> Inverts(p, write, value, x)
    requires p(tail).Fail?
    ensures Many(p, PrintAll(write, xs) + tail) == Done(Map(value, xs), tail)
    ensures xs != [] ==> Many1(p, PrintAll(write, xs) + tail) == Done(Map(value, xs), tail)
  {
    hide Inverts, Many1;
    if xs == [] {
      assert PrintAll(write, xs) + tail == tail;
    } else {
      assert forall x :: x in xs[1..] ==> x in xs;
      ManyInverts(p, write, value, xs[1..], tail);
      var more := PrintAll(write, xs[1..]) + tail;
      OneMoreInverts(p, write, value, xs[0], more, tail);
      assert PrintAll(write, xs) + tail == write(xs[0]) + more;
      assert [value(xs[0])] + Map(value, xs[1..]) == Map(value, xs);
    }
  }

  function Same<T>(x: T): T {
    x
  }

  lemma MapSame<T>(xs: seq<T>)
    ensures Map(Same, xs) == xs
  {
  }
}
