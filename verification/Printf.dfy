/**
 * Number and text formatting of student-distrib/lib.c: `itoa` with its in-place reversal, and
 * `printf` over it and over the console. The text of each conversion is built first, then put.
 */
module Printf {
  import opened Bytes
  import Console

  // ---------------------------------------------------------------- numerals

  type Radix = r: int | 2 <= r <= 36 witness 2

  /** The `lookup` table. */
  function DigitChar(d: nat): Byte
    requires d < 36
  {
    if d < 10 then Ascii('0') + d else Ascii('A') + (d - 10)
  }

  /** The value of a digit character, or -1. */
  function DigitValue(c: Byte): int {
    if Ascii('0') <= c <= Ascii('9') then c - Ascii('0')
    else if Ascii('A') <= c <= Ascii('Z') then c - Ascii('A') + 10
    else -1
  }

  lemma DivLess(v: nat, radix: nat)
    requires radix >= 2
    ensures v > 0 ==> v / radix < v
  {
  }

  function Digits(v: nat, radix: Radix): (s: seq<Byte>)
    ensures s != []
    decreases v
  {
    if v < radix then [DigitChar(v)]
    else
      DivLess(v, radix);
      Digits(v / radix, radix) + [DigitChar(v % radix)]
  }

  ghost predicate IsNumeral(s: seq<Byte>, radix: Radix) {
    && s != []
    && (forall i :: 0 <= i < |s| ==> 0 <= DigitValue(s[i]) < radix)
    && (|s| > 1 ==> s[0] != Ascii('0'))
  }

  /** The number that a digit string denotes. */
  ghost function Value(s: seq<Byte>, radix: Radix): int {
    if s == [] then 0 else Value(s[..|s| - 1], radix) * radix + DigitValue(s[|s| - 1])
  }

  lemma DigitOf(d: nat)
    requires d < 36
    ensures DigitValue(DigitChar(d)) == d && (DigitChar(d) == Ascii('0') <==> d == 0)
  {
  }

  const LOOKUP: string := "0123456789ABCDEFGHIJKLMNOPQRSTUVWXYZ"

  /** The digits are those of the table in the code, in upper case. */
  lemma DigitsInOrder(d: nat)
    requires d < 36
    ensures |LOOKUP| == 36 && DigitChar(d) == LOOKUP[d] as int
  {
  }

  lemma OneDigit(d: nat, radix: Radix)
    requires d < radix
    ensures IsNumeral([DigitChar(d)], radix) && Value([DigitChar(d)], radix) == d
  {
    DigitOf(d);
    assert [DigitChar(d)][..0] == [];
  }

  /** A digit after a numeral that does not begin with 0. */
  lemma PushDigit(s: seq<Byte>, radix: Radix, d: nat)
    requires IsNumeral(s, radix) && s[0] != Ascii('0') && d < radix
    ensures IsNumeral(s + [DigitChar(d)], radix)
    ensures Value(s + [DigitChar(d)], radix) == Value(s, radix) * radix + d
  {
    DigitOf(d);
    assert (s + [DigitChar(d)])[..|s|] == s;
  }

  lemma {:induction false} DigitsAreNumeral(v: nat, radix: Radix)
    ensures IsNumeral(Digits(v, radix), radix) && Value(Digits(v, radix), radix) == v
    ensures v > 0 ==> Digits(v, radix)[0] != Ascii('0')
    decreases v
  {
    if v < radix {
      OneDigit(v, radix);
      DigitOf(v);
    } else {
      DivLess(v, radix);
      DivPositive(v, radix);
      DivMod(v, radix);
      DigitsAreNumeral(v / radix, radix);
      PushDigit(Digits(v / radix, radix), radix, v % radix);
    }
  }

  lemma DivMod(v: nat, radix: nat)
    requires radix > 0
    ensures v / radix * radix + v % radix == v && 0 <= v % radix < radix
  {
  }

  /** The numerals for `v` are exactly `Digits(v)`: there is no other way to write it without leading zeros. */
  lemma {:induction false} DigitsAreTheOnlyNumeral(s: seq<Byte>, v: nat, radix: Radix)
    ensures IsNumeral(s, radix) && Value(s, radix) == v <==> s == Digits(v, radix)
    decreases |s|
  {
    DigitsAreNumeral(v, radix);
    if IsNumeral(s, radix) && Value(s, radix) == v {
      NumeralIsDigits(s, radix);
    }
  }

  lemma {:induction false} NumeralIsDigits(s: seq<Byte>, radix: Radix)
    requires IsNumeral(s, radix)
    ensures Value(s, radix) >= 0 && (s[0] != Ascii('0') ==> Value(s, radix) > 0)
    ensures s == Digits(Value(s, radix), radix)
    decreases |s|
  {
    var init, d := s[..|s| - 1], DigitValue(s[|s| - 1]);
    if init == [] {
      assert Value(s, radix) == d;
    } else {
      NumeralIsDigits(init, radix);
      var q := Value(init, radix);
      assert q > 0;
      MulAtLeast(q, radix);
      DivModUnique(q, d, radix);
      assert s == init + [DigitChar(d)];
    }
  }

  lemma MulAtLeast(q: nat, radix: nat)
    requires q > 0
    ensures q * radix >= radix
  {
  }

  lemma {:induction false} DigitsLength(v: nat, radix: Radix, n: nat)
    requires n > 0 && v < Pow(radix, n)
    ensures |Digits(v, radix)| <= n
    decreases n
  {
    if v >= radix {
      assert n > 1 by {
        assert Pow(radix, 1) == radix;
      }
      DivBelow(v, radix, Pow(radix, n - 1));
      DigitsLength(v / radix, radix, n - 1);
    }
  }

  lemma DivBelow(v: nat, radix: nat, p: nat)
    requires radix > 0 && v < radix * p
    ensures v / radix < p
  {
  }

  /** A 32-bit number has at most 8 hexadecimal and 10 decimal digits. */
  lemma WordLength(v: nat)
    requires v < 0x1_0000_0000
    ensures |Digits(v, 16)| <= 8 && |Digits(v, 10)| <= 10
  {
    assert Pow(16, 4) == 0x1_0000;
    assert Pow(16, 8) == 0x1_0000_0000;
    assert Pow(10, 5) == 100_000;
    assert Pow(10, 10) == 10_000_000_000;
    DigitsLength(v, 16, 8);
    DigitsLength(v, 10, 10);
  }

  // ---------------------------------------------------------------- itoa

  function Reverse(s: seq<Byte>): (r: seq<Byte>)
    ensures |r| == |s| && forall i :: 0 <= i < |s| ==> r[i] == s[|s| - 1 - i]
  {
    seq(|s|, i requires 0 <= i < |s| => s[|s| - 1 - i])
  }

  method Strlen(buf: array<Byte>, at: nat, ghost s: seq<Byte>) returns (n: nat)
    requires StringAt(buf[..], at, s)
    ensures n == |s|
  {
    n := 0;
    while buf[at + n] != NUL
      invariant n <= |s|
      decreases |s| - n
    {
      n := n + 1;
    }
    assert forall i :: 0 <= i < |s| ==> s[i] in s && s[i] == buf[at..at + |s|][i];
  }

  /** The outer `k` characters of a string have been swapped, from both ends. */
  ghost predicate Swapped(buf: seq<Byte>, at: nat, s: seq<Byte>, k: nat) {
    && at + |s| < |buf|
    && forall j {:trigger buf[j]} :: at <= j < at + |s| ==>
      buf[j] == if at + k <= j < at + |s| - k then s[j - at] else s[|s| - 1 - (j - at)]
  }

  lemma SwappedNone(buf: seq<Byte>, at: nat, s: seq<Byte>)
    requires StringAt(buf, at, s)
    ensures Swapped(buf, at, s, 0)
  {
    assert forall j :: at <= j < at + |s| ==> buf[j] == buf[at..at + |s|][j - at];
  }

  lemma SwapOne(buf: seq<Byte>, at: nat, s: seq<Byte>, k: nat)
    requires Swapped(buf, at, s, k) && 2 * k + 1 < |s|
    ensures var low, high := at + k, at + |s| - 1 - k;
      Swapped(buf[high := buf[low]][low := buf[high]], at, s, k + 1)
  {
  }

  lemma SwappedAll(buf: seq<Byte>, at: nat, s: seq<Byte>, k: nat)
    requires Swapped(buf, at, s, k) && |s| <= 2 * k + 1 && buf[at + |s|] == NUL && NUL !in s
    ensures StringAt(buf, at, Reverse(s))
  {
    var r := buf[at..at + |s|];
    assert forall i :: 0 <= i < |s| ==> r[i] == buf[at + i];
    assert r == Reverse(s);
    assert forall i :: 0 <= i < |s| ==> Reverse(s)[i] in s;
  }

  method Strrev(buf: array<Byte>, at: nat, ghost s: seq<Byte>)
    requires StringAt(buf[..], at, s)
    modifies buf
    ensures StringAt(buf[..], at, Reverse(s))
    ensures buf[..at] == old(buf[..at])
  {
    var n := Strlen(buf, at, s);
    var beg: int, end: int := 0, n as int - 1;
    SwappedNone(buf[..], at, s);
    while beg < end
      invariant 0 <= beg <= n && end == n as int - 1 - beg
      invariant Swapped(buf[..], at, s, beg)
      invariant buf[at + n] == NUL && buf[..at] == old(buf[..at])
    {
      SwapOne(buf[..], at, s, beg);
      var tmp := buf[at + end];
      buf[at + end] := buf[at + beg];
      buf[at + beg] := tmp;
      beg := beg + 1;
      end := end - 1;
    }
    SwappedAll(buf[..], at, s, beg);
  }

  method Itoa(value: nat, buf: array<Byte>, at: nat, radix: Radix)
    requires value < 0x1_0000_0000 && at + |Digits(value, radix)| < buf.Length
    modifies buf
    ensures StringAt(buf[..], at, Digits(value, radix))
    ensures buf[..at] == old(buf[..at])
  {
    if value == 0 {
      buf[at] := Ascii('0');
      buf[at + 1] := NUL;
      return;
    }
    ghost var low: seq<Byte> := [];
    var newbuf: nat, newval := at, value;
    while newval > 0
      invariant newbuf == at + |low| < buf.Length && buf[at..newbuf] == low && NUL !in low
      invariant Digits(value, radix) == (if newval > 0 then Digits(newval, radix) else []) + Reverse(low)
      invariant buf[..at] == old(buf[..at])
      decreases newval
    {
      DivLess(newval, radix);
      var i := newval % radix;
      buf[newbuf] := DigitChar(i);
      newbuf := newbuf + 1;
      LowDigit(newval, radix, low);
      low := low + [DigitChar(i)];
      newval := newval / radix;
    }
    buf[newbuf] := NUL;
    assert Digits(value, radix) == Reverse(low);
    Strrev(buf, at, low);
  }

  lemma ReversePush(low: seq<Byte>, d: Byte)
    ensures Reverse(low + [d]) == [d] + Reverse(low)
  {
  }

  lemma SmallDigits(v: nat, radix: Radix)
    ensures v < radix ==> v / radix == 0 && Digits(v, radix) == [DigitChar(v % radix)]
    ensures v >= radix ==> v / radix > 0 && Digits(v, radix) == Digits(v / radix, radix) + [DigitChar(v % radix)]
  {
    if v < radix {
      DivModUnique(0, v, radix);
    } else {
      DivPositive(v, radix);
    }
  }

  lemma LowDigit(v: nat, radix: Radix, low: seq<Byte>)
    requires v > 0
    ensures Digits(v, radix) + Reverse(low) ==
      (if v / radix > 0 then Digits(v / radix, radix) else []) + Reverse(low + [DigitChar(v % radix)])
  {
    SmallDigits(v, radix);
    ReversePush(low, DigitChar(v % radix));
    if v >= radix {
      Associate(Digits(v / radix, radix), [DigitChar(v % radix)], Reverse(low));
    }
  }

  lemma DivPositive(v: nat, radix: nat)
    requires v >= radix > 0
    ensures v / radix > 0
  {
  }

  // ---------------------------------------------------------------- printf

  /** A variadic argument: a 32-bit word, or a pointer to a string. */
  datatype Arg = Word(w: nat) | Str(s: seq<Byte>)

  function Signed(w: nat): (s: seq<Byte>) {
    var v := S32(w);
    if v < 0 then [Ascii('-')] + Digits(-v, 10) else Digits(v, 10)
  }

  /** Exactly eight hexadecimal digits. */
  function Hex8(w: nat): (s: seq<Byte>)
    requires w < 0x1_0000_0000
    ensures |s| == 8
    ensures exists zeros: nat :: s == Zeros(zeros) + Digits(w, 16)
  {
    WordLength(w);
    var zeros := 8 - |Digits(w, 16)|;
    assert |Zeros(zeros) + Digits(w, 16)| == 8;
    Zeros(zeros) + Digits(w, 16)
  }

  function Zeros(n: nat): (z: seq<Byte>)
    ensures |z| == n
  {
    seq(n, _ => Ascii('0'))
  }

  /** The text of one conversion, when its argument is of the right kind. */
  function Convert(c: Byte, alternate: bool, arg: Arg): (r: Option<seq<Byte>>) {
    match arg
    case Word(w) =>
      if w >= 0x1_0000_0000 then None
      else if c == Ascii('x') then Some(if alternate then Hex8(w) else Digits(w, 16))
      else if c == Ascii('u') then Some(Digits(w, 10))
      else if c == Ascii('d') then Some(Signed(w))
      else if c == Ascii('c') then Some([w % 0x100])
      else None
    case Str(t) => if c == Ascii('s') && NUL !in t then Some(t) else None
  }

  predicate TakesArgument(c: Byte) {
    c == Ascii('x') || c == Ascii('u') || c == Ascii('d') || c == Ascii('c') || c == Ascii('s')
  }

  function Prefixed(t: seq<Byte>, rest: Option<seq<Byte>>): Option<seq<Byte>> {
    if rest.None? then None else Some(t + rest.value)
  }

  /**
   * The rendering of a format, or `None` for one that ends inside a conversion or whose arguments
   * do not fit. `state` says where in a conversion the format is.
   */
  datatype State = Plain | Percent | Sharp

  function Render(f: seq<Byte>, args: seq<Arg>, state: State): Option<seq<Byte>>
    decreases |f|
  {
    if f == [] then if state == Plain then Some([]) else None
    else if state == Plain then
      if f[0] == Ascii('%') then Render(f[1..], args, Percent) else Prefixed([f[0]], Render(f[1..], args, Plain))
    else if f[0] == Ascii('%') then Prefixed([f[0]], Render(f[1..], args, Plain))
    else if f[0] == Ascii('#') then Render(f[1..], args, Sharp)
    else if !TakesArgument(f[0]) then Render(f[1..], args, Plain)
    else if args == [] || Convert(f[0], state == Sharp, args[0]) == None then None
    else Prefixed(Convert(f[0], state == Sharp, args[0]).value, Render(f[1..], args[1..], Plain))
  }

  /** The number of arguments that a format takes. */
  function Uses(f: seq<Byte>, state: State): nat {
    if f == [] then 0
    else if state == Plain then Uses(f[1..], if f[0] == Ascii('%') then Percent else Plain)
    else if f[0] == Ascii('#') then Uses(f[1..], Sharp)
    else (if f[0] != Ascii('%') && TakesArgument(f[0]) then 1 else 0) + Uses(f[1..], Plain)
  }

  lemma PrefixPrefix(x: seq<Byte>, y: seq<Byte>, rest: Option<seq<Byte>>)
    ensures Prefixed(x, Prefixed(y, rest)) == Prefixed(x + y, rest)
  {
    if rest.Some? {
      Associate(x, y, rest.value);
    }
  }

  /** A format in two parts renders as the first part, with the arguments it takes, and then the second. */
  lemma {:induction false} RenderAppend(f: seq<Byte>, a: seq<Arg>, state: State, g: seq<Byte>, b: seq<Arg>)
    requires Render(f, a, state).Some? && |a| == Uses(f, state)
    ensures Render(f + g, a + b, state) == Prefixed(Render(f, a, state).value, Render(g, b, Plain))
    decreases |f|
  {
    if f == [] {
      assert f + g == g && a + b == b;
      PrefixNothing(Render(g, b, Plain));
      return;
    }
    assert (f + g)[1..] == f[1..] + g;
    if state == Plain && f[0] == Ascii('%') {
      RenderAppend(f[1..], a, Percent, g, b);
    } else if state == Plain || f[0] == Ascii('%') {
      RenderAppend(f[1..], a, Plain, g, b);
      PrefixPrefix([f[0]], Render(f[1..], a, Plain).value, Render(g, b, Plain));
    } else if f[0] == Ascii('#') {
      RenderAppend(f[1..], a, Sharp, g, b);
    } else if !TakesArgument(f[0]) {
      RenderAppend(f[1..], a, Plain, g, b);
    } else {
      assert (a + b)[1..] == a[1..] + b;
      RenderAppend(f[1..], a[1..], Plain, g, b);
      var text := Convert(f[0], state == Sharp, a[0]).value;
      PrefixPrefix(text, Render(f[1..], a[1..], Plain).value, Render(g, b, Plain));
    }
  }

  // ---------------------------------------------------------------- what the conversions mean

  /** `s` writes the number `v` without leading zeros. */
  ghost predicate Denotes(s: seq<Byte>, v: nat, radix: Radix) {
    IsNumeral(s, radix) && Value(s, radix) == v
  }

  lemma {:induction false} ZerosValue(n: nat, s: seq<Byte>, radix: Radix)
    ensures Value(Zeros(n) + s, radix) == Value(s, radix)
    decreases n + |s|
  {
    if s != [] {
      assert (Zeros(n) + s)[..n + |s| - 1] == Zeros(n) + s[..|s| - 1];
      ZerosValue(n, s[..|s| - 1], radix);
    } else if n > 0 {
      assert Zeros(n) + [] == Zeros(n) && Zeros(n)[..n - 1] == Zeros(n - 1) + [];
      ZerosValue(n - 1, [], radix);
    }
  }

  /** The signed form of a word: a minus sign for the upper half, and the distance from 2^32. */
  lemma SignedDenotes(w: nat)
    requires w < 0x1_0000_0000
    ensures w < 0x8000_0000 ==> Denotes(Signed(w), w, 10)
    ensures w >= 0x8000_0000 ==> Signed(w)[..1] == Text("-") && Denotes(Signed(w)[1..], 0x1_0000_0000 - w, 10)
  {
    if w < 0x8000_0000 {
      DigitsAreNumeral(w, 10);
      assert S32(w) == w;
    } else {
      var v: nat := 0x1_0000_0000 - w;
      DigitsAreNumeral(v, 10);
      UpperHalf(w);
      assert Signed(w) == [Ascii('-')] + Digits(v, 10);
      assert Signed(w)[1..] == Digits(v, 10) && Signed(w)[..1] == [Ascii('-')] == Text("-");
    }
  }

  lemma UpperHalf(w: nat)
    requires 0x8000_0000 <= w < 0x1_0000_0000
    ensures S32(w) == w - 0x1_0000_0000
  {
  }

  /** A format of one conversion, plain or with a sharp. */
  function Conversion1(c: char, sharp: bool): seq<Byte>
    requires c as int < 0x100
  {
    if sharp then [Ascii('%'), Ascii('#'), Ascii(c)] else [Ascii('%'), Ascii(c)]
  }

  /** The sharp is passed over. */
  lemma RenderStart(c: char, sharp: bool, args: seq<Arg>)
    requires c as int < 0x100
    ensures Render(Conversion1(c, sharp), args, Plain) == Render([Ascii(c)], args, if sharp then Sharp else Percent)
  {
    var f, b := Conversion1(c, sharp), Ascii(c);
    if sharp {
      assert f[1..] == [Ascii('#'), b] && [Ascii('#'), b][1..] == [b];
    } else {
      assert f[1..] == [b];
    }
  }

  lemma RenderOne(c: char, sharp: bool, arg: Arg)
    requires c as int < 0x100 && TakesArgument(Ascii(c))
    ensures Render(Conversion1(c, sharp), [arg], Plain) == Convert(Ascii(c), sharp, arg)
  {
    RenderStart(c, sharp, [arg]);
    var b := Ascii(c);
    assert [b][1..] == [] && Render([], [arg][1..], Plain) == Some([]);
    if Convert(b, sharp, arg).Some? {
      assert Convert(b, sharp, arg).value + [] == Convert(b, sharp, arg).value;
    }
  }

  /** A conversion that puts a number. */
  ghost predicate Puts(c: char, sharp: bool, w: nat, text: seq<Byte>)
    requires c as int < 0x100
  {
    Render(Conversion1(c, sharp), [Word(w)], Plain) == Some(text)
  }

  /** What each conversion of a word puts; a sharp alters `%x` only. */
  lemma WordConversions(w: nat, sharp: bool)
    requires w < 0x1_0000_0000
    ensures exists t :: Puts('u', sharp, w, t) && Denotes(t, w, 10)
    ensures exists t :: Puts('x', false, w, t) && Denotes(t, w, 16)
    ensures exists t :: Puts('x', true, w, t) && |t| == 8 && Value(t, 16) == w
    ensures Puts('d', sharp, w, Signed(w))
    ensures Puts('c', sharp, w, [w % 0x100])
  {
    RenderOne('u', sharp, Word(w));
    RenderOne('x', false, Word(w));
    RenderOne('x', true, Word(w));
    RenderOne('d', sharp, Word(w));
    RenderOne('c', sharp, Word(w));
    DigitsAreNumeral(w, 10);
    DigitsAreNumeral(w, 16);
    var zeros :| Hex8(w) == Zeros(zeros) + Digits(w, 16);
    ZerosValue(zeros, Digits(w, 16), 16);
    assert Puts('u', sharp, w, Digits(w, 10)) && Puts('x', false, w, Digits(w, 16)) && Puts('x', true, w, Hex8(w));
  }

  /** The documented example: the number 14 in its sharp hexadecimal form. */
  lemma SharpExample()
    ensures Render(Text("%#x"), [Word(14)], Plain) == Some(Text("0000000E"))
  {
    RenderOne('x', true, Word(14));
    assert Text("%#x") == Conversion1('x', true);
    assert Digits(14, 16) == [Ascii('E')];
    assert Hex8(14) == Zeros(7) + [Ascii('E')] == Text("0000000E");
  }

  /** A string is put as it is. */
  lemma StringConversion(s: seq<Byte>, sharp: bool)
    requires NUL !in s
    ensures Render(Conversion1('s', sharp), [Str(s)], Plain) == Some(s)
  {
    RenderOne('s', sharp, Str(s));
  }

  /** A conversion that takes no argument puts a percent sign if it is one, and nothing otherwise. */
  lemma OtherConversions(c: char, sharp: bool)
    requires c as int < 0x100 && c != '#' && c != 'x' && c != 'u' && c != 'd' && c != 'c' && c != 's'
    ensures Render(Conversion1(c, sharp), [], Plain) == Some(if c == '%' then [Ascii('%')] else [])
  {
    RenderStart(c, sharp, []);
    var b := Ascii(c);
    assert !TakesArgument(b);
    assert [b][1..] == [] && Render([], [], Plain) == Some([]);
    assert [b] + [] == [b];
  }

  lemma {:induction false} PlainText(f: seq<Byte>)
    requires Ascii('%') !in f
    ensures Render(f, [], Plain) == Some(f) && Uses(f, Plain) == 0
    decreases |f|
  {
    if f != [] {
      assert f[0] in f;
      PlainText(f[1..]);
      assert [f[0]] + f[1..] == f;
    }
  }

  // ---------------------------------------------------------------- the code of printf

  /** `puts` of a string in a buffer. */
  method PutsFrom(buf: array<Byte>, at: nat, ghost s: seq<Byte>) returns (out: seq<Byte>)
    requires StringAt(buf[..], at, s)
    ensures out == s
  {
    var n := Strlen(buf, at, s);
    out := buf[at..at + n];
  }

  lemma DigitsNonNul(v: nat, radix: Radix)
    ensures NUL !in Digits(v, radix)
    decreases v
  {
    if v >= radix {
      DivLess(v, radix);
      DigitsNonNul(v / radix, radix);
    }
  }

  lemma JoinStrings(buf: seq<Byte>, at: nat, mid: nat, a: seq<Byte>, b: seq<Byte>)
    requires at <= mid <= |buf| && buf[at..mid] == a && NUL !in a && StringAt(buf, mid, b)
    ensures StringAt(buf, at, a + b)
  {
    assert buf[at..mid + |b|] == buf[at..mid] + buf[mid..mid + |b|];
  }

  /** The sharp form of `%x` pads into the part of the buffer below the number. */
  method PadHex(buf: array<Byte>, ghost digits: seq<Byte>) returns (start: nat)
    requires buf.Length == 64 && StringAt(buf[..], 8, digits) && |digits| <= 8
    modifies buf
    ensures start == |digits| && StringAt(buf[..], start, Zeros(8 - start) + digits)
  {
    start := Strlen(buf, 8, digits);
    var i := start;
    while i < 8
      invariant start <= i <= 8 && StringAt(buf[..], 8, digits)
      invariant buf[start..i] == Zeros(i - start)
    {
      buf[i] := Ascii('0');
      i := i + 1;
    }
    JoinStrings(buf[..], start, 8, Zeros(8 - start), digits);
  }

  /** The `%x` case. */
  method ConvertHex(w: nat, alternate: bool) returns (out: seq<Byte>)
    requires w < 0x1_0000_0000
    ensures out == if alternate then Hex8(w) else Digits(w, 16)
  {
    var buf := new Byte[64];
    WordLength(w);
    ghost var digits := Digits(w, 16);
    if !alternate {
      Itoa(w, buf, 0, 16);
      out := PutsFrom(buf, 0, digits);
    } else {
      Itoa(w, buf, 8, 16);
      var start := PadHex(buf, digits);
      out := PutsFrom(buf, start, Zeros(8 - start) + digits);
    }
  }

  /** The `%d` case; negating the smallest number is taken to wrap around. */
  method ConvertSigned(w: nat) returns (out: seq<Byte>)
    requires w < 0x1_0000_0000
    ensures out == Signed(w)
  {
    var buf := new Byte[36];
    var value := S32(w);
    if value < 0 {
      WordLength(-value);
      buf[0] := Ascii('-');
      Itoa(U32(-value), buf, 1, 10);
      assert buf[0] == buf[..1][0];
      out := PutsFrom(buf, 0, [Ascii('-')] + Digits(-value, 10));
    } else {
      WordLength(value);
      Itoa(value, buf, 0, 10);
      out := PutsFrom(buf, 0, Digits(value, 10));
    }
  }

  /** A conversion that takes an argument. */
  method ConvertArgument(c: Byte, alternate: bool, arg: Arg) returns (out: seq<Byte>)
    requires TakesArgument(c) && Convert(c, alternate, arg).Some?
    ensures out == Convert(c, alternate, arg).value
  {
    if c == Ascii('x') {
      out := ConvertHex(arg.w, alternate);
    } else if c == Ascii('u') {
      var buf := new Byte[36];
      WordLength(arg.w);
      Itoa(arg.w, buf, 0, 10);
      out := PutsFrom(buf, 0, Digits(arg.w, 10));
    } else if c == Ascii('d') {
      out := ConvertSigned(arg.w);
    } else if c == Ascii('c') {
      out := [arg.w % 0x100];
    } else {
      out := arg.s;
    }
  }

  /** What is still to be rendered at a position of the format and of the arguments. */
  ghost function Rest(format: seq<Byte>, args: seq<Arg>, pos: nat, arg: nat, state: State): Option<seq<Byte>>
    requires pos <= |format| && arg <= |args|
  {
    Render(format[pos..], args[arg..], state)
  }

  lemma RestSharp(format: seq<Byte>, args: seq<Arg>, pos: nat, arg: nat, state: State)
    requires pos < |format| && arg <= |args| && format[pos] == Ascii('#') && state != Plain
    ensures Rest(format, args, pos, arg, state) == Rest(format, args, pos + 1, arg, Sharp)
  {
  }

  lemma RestPlain(format: seq<Byte>, args: seq<Arg>, pos: nat, arg: nat)
    requires pos < |format| && arg <= |args|
    ensures Rest(format, args, pos, arg, Plain) ==
      if format[pos] == Ascii('%') then Rest(format, args, pos + 1, arg, Percent)
      else Prefixed([format[pos]], Rest(format, args, pos + 1, arg, Plain))
  {
  }

  /** A conversion character, after its sharps. */
  lemma RestConversion(format: seq<Byte>, args: seq<Arg>, pos: nat, arg: nat, state: State)
    requires pos < |format| && arg <= |args| && format[pos] != Ascii('#') && state != Plain
    requires Rest(format, args, pos, arg, state).Some?
    ensures var c, rest := format[pos], Rest(format, args, pos, arg, state);
      if c == Ascii('%') then rest == Prefixed([c], Rest(format, args, pos + 1, arg, Plain))
      else if !TakesArgument(c) then rest == Prefixed([], Rest(format, args, pos + 1, arg, Plain))
      else (
        && arg < |args| && Convert(c, state == Sharp, args[arg]).Some?
        && rest == Prefixed(Convert(c, state == Sharp, args[arg]).value, Rest(format, args, pos + 1, arg + 1, Plain)))
  {
    assert format[pos..][1..] == format[pos + 1..];
    if arg < |args| {
      assert args[arg..][1..] == args[arg + 1..];
    }
    PrefixNothing(Rest(format, args, pos + 1, arg, Plain));
  }

  lemma PrefixNothing(rest: Option<seq<Byte>>)
    ensures Prefixed([], rest) == rest
  {
    if rest.Some? {
      assert [] + rest.value == rest.value;
    }
  }

  /** The sharps of a conversion; `start` is after the percent sign. */
  method SkipSharps(format: seq<Byte>, ghost args: seq<Arg>, start: nat, ghost arg: nat)
    returns (pos: nat, alternate: bool)
    requires start <= |format| && arg <= |args| && Rest(format, args, start, arg, Percent).Some?
    ensures start <= pos < |format| && format[pos] != Ascii('#')
    ensures Rest(format, args, start, arg, Percent) ==
      Rest(format, args, pos, arg, if alternate then Sharp else Percent)
  {
    pos, alternate := start, false;
    while format[pos] == Ascii('#')
      invariant start <= pos < |format|
      invariant Rest(format, args, start, arg, Percent) ==
        Rest(format, args, pos, arg, if alternate then Sharp else Percent)
      decreases |format| - pos
    {
      RestSharp(format, args, pos, arg, if alternate then Sharp else Percent);
      alternate := true;
      pos := pos + 1;
    }
  }

  /** One conversion; `start` is after the percent sign. */
  method Conversion(format: seq<Byte>, args: seq<Arg>, start: nat, arg: nat)
    returns (text: seq<Byte>, pos: nat, next: nat)
    requires start <= |format| && arg <= |args| && Rest(format, args, start, arg, Percent).Some?
    ensures start < pos <= |format| && next <= |args|
    ensures Rest(format, args, start, arg, Percent) == Prefixed(text, Rest(format, args, pos, next, Plain))
  {
    var alternate;
    pos, alternate := SkipSharps(format, args, start, arg);
    RestConversion(format, args, pos, arg, if alternate then Sharp else Percent);
    text, next := [], arg;
    if format[pos] == Ascii('%') {
      text := [format[pos]];
    } else if TakesArgument(format[pos]) {
      text := ConvertArgument(format[pos], alternate, args[arg]);
      next := arg + 1;
    }
    pos := pos + 1;
  }

  /** One turn of the loop of `printf`, on the text that is left. */
  method Turn(format: seq<Byte>, args: seq<Arg>, start: nat, arg: nat) returns (text: seq<Byte>, pos: nat, next: nat)
    requires start < |format| && arg <= |args| && Rest(format, args, start, arg, Plain).Some?
    ensures start < pos <= |format| && next <= |args|
    ensures Rest(format, args, start, arg, Plain) == Prefixed(text, Rest(format, args, pos, next, Plain))
  {
    RestPlain(format, args, start, arg);
    if format[start] == Ascii('%') {
      text, pos, next := Conversion(format, args, start + 1, arg);
    } else {
      text, pos, next := [format[start]], start + 1, arg;
    }
  }

  /** `putc` of each character of a text. */
  method PutText(screen: Console.Screen, text: seq<Byte>)
    requires screen.Valid() && Console.Fits(screen.Current(), Console.Chars(text))
    modifies screen, screen.video, screen.saved
    ensures screen.Valid() && screen.Current() == Console.PutAll(old(screen.Current()), text)
  {
    Console.ApplyChars(screen.Current(), text);
    screen.Run(Console.Chars(text));
  }

  /** The text still to be put fits, and completes what was to be put at the start. */
  ghost predicate Putting(now: Console.View, rest: Option<seq<Byte>>, start: Console.View, all: seq<Byte>) {
    && rest.Some? && Console.Fits(start, Console.Chars(all)) && Console.Fits(now, Console.Chars(rest.value))
    && Console.PutAll(now, rest.value) == Console.PutAll(start, all)
  }

  lemma PuttingMore(now: Console.View, text: seq<Byte>, rest: Option<seq<Byte>>, start: Console.View, all: seq<Byte>)
    requires Putting(now, Prefixed(text, rest), start, all)
    ensures Console.Fits(now, Console.Chars(text)) && Putting(Console.PutAll(now, text), rest, start, all)
  {
    Console.PutSplit(now, text, rest.value);
  }

  /** `printf`: the rendering is put on the console; the result is the length of the format. */
  method Printf(screen: Console.Screen, format: seq<Byte>, args: seq<Arg>) returns (length: nat)
    requires NUL !in format && Render(format, args, Plain).Some?
    requires screen.Valid() && Console.Fits(screen.Current(), Console.Chars(Render(format, args, Plain).value))
    modifies screen, screen.video, screen.saved
    ensures screen.Valid() && length == |format|
    ensures screen.Current() == Console.PutAll(old(screen.Current()), Render(format, args, Plain).value)
  {
    ghost var start, all := screen.Current(), Render(format, args, Plain).value;
    var pos: nat, arg: nat := 0, 0;
    assert format[0..] == format && args[0..] == args;
    while pos < |format|
      invariant pos <= |format| && arg <= |args| && screen.Valid()
      invariant Putting(screen.Current(), Rest(format, args, pos, arg, Plain), start, all)
      decreases |format| - pos
    {
      var text;
      ghost var now := screen.Current();
      text, pos, arg := Turn(format, args, pos, arg);
      PuttingMore(now, text, Rest(format, args, pos, arg, Plain), start, all);
      PutText(screen, text);
    }
    length := pos;
  }
}
