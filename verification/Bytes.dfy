/** Machine numbers and byte strings shared by every module. */
module Bytes {

  type Byte = x: int | 0 <= x < 0x100

  const NUL: Byte := 0
  const BS: Byte := 8
  const NL: Byte := 10
  const CR: Byte := 13
  const SPACE: Byte := 32

  /** The value an `int` takes when stored in a `uint32_t`. */
  function U32(x: int): (r: int)
    ensures 0 <= r < 0x1_0000_0000
    ensures 0 <= x < 0x1_0000_0000 ==> r == x
  {
    x % 0x1_0000_0000
  }

  /** The value an `int` takes when stored in an `int32_t` (two's complement). */
  function S32(x: int): (r: int)
    ensures -0x8000_0000 <= r < 0x8000_0000
    ensures U32(r) == U32(x)
    ensures -0x8000_0000 <= x < 0x8000_0000 ==> r == x
  {
    var u := U32(x);
    if u < 0x8000_0000 then u else u - 0x1_0000_0000
  }

  datatype Option<T> = None | Some(value: T)

  /** The ASCII code of a character literal. */
  function Ascii(c: char): Byte
    requires c as int < 0x100
  {
    c as int
  }

  function Text(s: string): seq<Byte>
    requires forall i :: 0 <= i < |s| ==> s[i] as int < 0x100
  {
    seq(|s|, i requires 0 <= i < |s| => Ascii(s[i]))
  }

  /** A NUL-terminated string in a buffer. */
  ghost predicate StringAt(buf: seq<Byte>, at: nat, s: seq<Byte>) {
    at + |s| < |buf| && buf[at..at + |s|] == s && buf[at + |s|] == NUL && NUL !in s
  }

  /** Index of the first newline, or the length when there is none. */
  function NewlineAt(s: seq<Byte>): (n: nat)
    ensures n <= |s|
    ensures NL !in s[..n]
    ensures n < |s| ==> s[n] == NL
  {
    if s == [] || s[0] == NL then 0
    else
      assert s[..1 + NewlineAt(s[1..])] == [s[0]] + s[1..][..NewlineAt(s[1..])];
      1 + NewlineAt(s[1..])
  }

  /** The lines of a file: the text between newlines, including what follows the last one. */
  function Lines(s: seq<Byte>): (ls: seq<seq<Byte>>)
    ensures |ls| >= 1
    decreases |s|
  {
    var n := NewlineAt(s);
    if n == |s| then [s] else [s[..n]] + Lines(s[n + 1..])
  }

  lemma LinesStep(s: seq<Byte>, n: nat, rest: seq<Byte>)
    requires n == NewlineAt(s) < |s| && rest == s[n + 1..]
    ensures Lines(s) == [s[..n]] + Lines(rest)
  {
  }

  /** Reading one more byte in front of a file ends its first line or extends it. */
  lemma LinesCons(c: Byte, s: seq<Byte>)
    ensures c == NL ==> Lines([c] + s) == [[]] + Lines(s)
    ensures c != NL ==> Lines([c] + s) == [[c] + Lines(s)[0]] + Lines(s)[1..]
  {
    var t, n := [c] + s, NewlineAt(s);
    assert t[1..] == s;
    if c == NL {
      LinesStep(t, 0, s);
    } else if n < |s| {
      assert t[n + 2..] == s[n + 1..];
      assert t[..n + 1] == [c] + s[..n];
      LinesStep(t, n + 1, s[n + 1..]);
      LinesStep(s, n, s[n + 1..]);
    }
  }

  /** A position with no newline before it, and a newline (or the end) at it, is the first one. */
  lemma NewlineAtIs(s: seq<Byte>, n: nat)
    requires n <= |s| && NL !in s[..n]
    requires n < |s| ==> s[n] == NL
    ensures NewlineAt(s) == n
  {
  }

  function Pow(b: nat, n: nat): (p: nat)
    ensures b > 0 ==> p > 0
  {
    if n == 0 then 1 else b * Pow(b, n - 1)
  }

  lemma DivModUnique(q: nat, d: nat, n: nat)
    requires d < n
    ensures (q * n + d) / n == q && (q * n + d) % n == d
  {
    var v := q * n + d;
    var e := v / n - q;
    assert e * n == v / n * n - q * n;
    assert e >= 1 ==> e * n >= n;
    assert e <= -1 ==> e * n <= 0 - n;
  }

  lemma Associate<T>(x: seq<T>, y: seq<T>, z: seq<T>)
    ensures x + (y + z) == (x + y) + z
  {
  }
}
