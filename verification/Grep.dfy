/**
 * The streaming search of syscalls/ece391grep.c: a 1024-byte buffer refilled in place, with the
 * partial line at its end carried down by an overlapping copy.
 *
 * `Pieces` says which parts of a file are searched, for any file: its lines, except that a line of
 * more than 1024 bytes is cut up. `Report` is what is printed for them.
 */
module Grep {
  import opened Bytes

  const BUFSIZE := 1024

  // ---------------------------------------------------------------- what is printed

  predicate MatchAt(line: seq<Byte>, s: seq<Byte>, i: nat) {
    i + |s| <= |line| && line[i..i + |s|] == s
  }

  /** `s[0]` is a signed char and the line unsigned bytes, so only an ASCII first byte can match. */
  ghost predicate Hit(line: seq<Byte>, s: seq<Byte>) {
    s != [] && s[0] < 0x80 && exists i: nat :: MatchAt(line, s, i)
  }

  ghost function ReportLine(line: seq<Byte>, s: seq<Byte>, fname: seq<Byte>): seq<Byte> {
    if Hit(line, s) then fname + [Ascii(':')] + line + [NL] else []
  }

  ghost function Report(lines: seq<seq<Byte>>, s: seq<Byte>, fname: seq<Byte>): seq<Byte> {
    if lines == [] then [] else ReportLine(lines[0], s, fname) + Report(lines[1..], s, fname)
  }

  function Pieces(f: seq<Byte>): seq<seq<Byte>>
    decreases |f|
  {
    var n := NewlineAt(f);
    if n >= BUFSIZE then [f[..BUFSIZE]] + Pieces(f[BUFSIZE..])
    else if n == |f| then [f]
    else [f[..n]] + Pieces(f[n + 1..])
  }

  /** What is still to be printed when the text `f` is left. */
  ghost function Due(f: seq<Byte>, s: seq<Byte>, fname: seq<Byte>): seq<Byte> {
    Report(Pieces(f), s, fname)
  }

  lemma DueLine(f: seq<Byte>, n: nat, s: seq<Byte>, fname: seq<Byte>)
    requires n < |f| && n < BUFSIZE && NL !in f[..n] && f[n] == NL
    ensures Due(f, s, fname) == ReportLine(f[..n], s, fname) + Due(f[n + 1..], s, fname)
  {
  }

  lemma NoHitInEmpty(s: seq<Byte>)
    ensures !Hit([], s)
  {
  }

  /** A full buffer without a newline, and the end of the file, are pieces too. */
  lemma DueTail(f: seq<Byte>, n: nat, s: seq<Byte>, fname: seq<Byte>)
    requires n <= |f| && NL !in f[..n]
    requires n == BUFSIZE || (n == |f| && n < BUFSIZE)
    ensures Due(f, s, fname) == ReportLine(f[..n], s, fname) + Due(f[n..], s, fname)
  {
    if n == BUFSIZE {
      assert NewlineAt(f) >= n by {
        assert forall k :: 0 <= k < n ==> f[k] in f[..n];
      }
      assert Pieces(f)[1..] == Pieces(f[n..]);
    } else {
      NewlineAtIs(f, n);
      assert f[..n] == f && f[n..] == [];
      assert Pieces(f) == [f] && Pieces([]) == [[]];
      NoHitInEmpty(s);
      assert Report([[]], s, fname) == ReportLine([], s, fname) + Report([], s, fname);
      assert Report([f], s, fname) == ReportLine(f, s, fname) + Report([], s, fname);
    }
  }

  /** Finishing the line at the start of what the buffer holds, `b`, leaves the rest of it due. */
  lemma DueStep(b: seq<Byte>, n: nat, rest: seq<Byte>, s: seq<Byte>, fname: seq<Byte>)
    requires n <= |b| <= BUFSIZE && NL !in b[..n]
    requires n < |b| ==> b[n] == NL
    requires n == |b| ==> n == BUFSIZE || rest == []
    ensures Due(b + rest, s, fname) ==
      ReportLine(b[..n], s, fname) + Due((if n < |b| then b[n + 1..] else []) + rest, s, fname)
  {
    var f := b + rest;
    assert f[..n] == b[..n];
    if n < |b| {
      DueLine(f, n, s, fname);
      assert f[n + 1..] == b[n + 1..] + rest;
    } else {
      DueTail(f, n, s, fname);
      assert f[n..] == [] + rest;
    }
  }

  lemma NulFree(b: seq<Byte>, n: nat)
    requires n <= |b| && NUL !in b
    ensures NUL !in b[..n] && NUL !in b[n..] && (n < |b| ==> NUL !in b[n + 1..])
  {
  }

  // ---------------------------------------------------------------- string helpers of ece391support.c

  /** `ece391_strncmp` on the NUL-terminated strings at `p` in `data` and in `s`. */
  method Strncmp(data: array<Byte>, p: nat, s: seq<Byte>, ghost end: nat) returns (diff: int)
    requires p <= end < data.Length && data[end] == NUL && NUL !in data[p..end] && NUL !in s
    ensures diff == 0 <==> MatchAt(data[p..end], s, 0)
  {
    if |s| == 0 {
      return 0;
    }
    ghost var t := data[p..end];
    var k := 0;
    while data[p + k] == s[k]
      invariant 0 <= k < |s| && k <= |t|
      invariant forall j :: 0 <= j < k ==> t[j] == s[j]
      decreases |s| - k
    {
      assert s[k] in s && k < |t| && t[k] == s[k];
      k := k + 1;
      if k == |s| {
        assert t[..k] == s;
        return 0;
      }
    }
    assert k < |t| ==> t[k] != s[k];
    var a: int, b: int := data[p + k], s[k];
    return a - b;
  }

  /** `ece391_strcpy` within one buffer, down to its start; the regions overlap. */
  method StrcpyDown(data: array<Byte>, src: nat, ghost end: nat)
    requires src <= end < data.Length && data[end] == NUL && NUL !in data[src..end]
    modifies data
    ensures data[..end - src] == old(data[src..end])
    ensures data[end - src] == NUL
    ensures forall j :: end - src < j < data.Length ==> data[j] == old(data[j])
  {
    var k := 0;
    while true
      invariant 0 <= k <= end - src
      invariant forall j :: 0 <= j < k ==> data[j] == old(data[src + j])
      invariant forall j :: k <= j < data.Length ==> data[j] == old(data[j])
      decreases end - src - k
    {
      data[k] := data[src + k];
      if data[k] == NUL {
        break;
      }
      k := k + 1;
    }
  }

  // ---------------------------------------------------------------- the loop

  lemma SliceOfSlice(data: seq<Byte>, start: nat, mid: nat, end: nat)
    requires start <= mid <= end <= |data|
    ensures data[start..end][mid - start..] == data[mid..end]
    ensures data[start..end][..mid - start] == data[start..mid]
  {
  }

  lemma MatchFrom(line: seq<Byte>, s: seq<Byte>, i: nat)
    requires i <= |line|
    ensures MatchAt(line, s, i) <==> MatchAt(line[i..], s, 0)
    ensures s != [] && MatchAt(line, s, i) ==> i < |line| && line[i] == s[0]
  {
  }

  /** The scan of one line, `data[start..end]`, that is now NUL-terminated. */
  method SearchLine(data: array<Byte>, start: nat, end: nat, s: seq<Byte>) returns (found: bool)
    requires start <= end < data.Length && data[end] == NUL && NUL !in data[start..end] && NUL !in s
    ensures found <==> Hit(data[start..end], s)
  {
    ghost var line := data[start..end];
    var first: int := if s == [] then NUL else if s[0] < 0x80 then s[0] else s[0] as int - 0x100;
    for check := start to end
      invariant Hit(line, s) ==> forall i :: 0 <= i < check - start ==> !MatchAt(line, s, i)
    {
      assert data[check] == line[check - start] && line[check - start] in line;
      SliceOfSlice(data[..], start, check, end);
      NulFree(line, check - start);
      MatchFrom(line, s, check - start);
      if first == data[check] {
        var diff := Strncmp(data, check, s, end);
        if diff == 0 {
          return true;
        }
      }
    }
    return false;
  }

  /** Terminates one line in place, searches it and prints it on a hit. */
  method FinishLine(data: array<Byte>, start: nat, end: nat, s: seq<Byte>, fname: seq<Byte>) returns (out: seq<Byte>)
    requires start <= end < data.Length && NUL !in data[start..end] && NUL !in s
    modifies data
    ensures data[..] == old(data[..])[end := NUL]
    ensures out == ReportLine(old(data[start..end]), s, fname)
  {
    data[end] := NUL;
    assert data[start..end] == old(data[start..end]);
    var found := SearchLine(data, start, end, s);
    out := [];
    if found {
      out := fname + [Ascii(':')] + data[start..end] + [NL];
    }
  }

  /** Moves the partial line at the end of the buffer to its start. */
  method CarryDown(data: array<Byte>, start: nat, end: nat)
    requires start <= end < data.Length == BUFSIZE + 1 && NUL !in data[start..end] && data[BUFSIZE] != NL
    modifies data
    ensures data[..end - start] == old(data[start..end]) && data[BUFSIZE] != NL
  {
    data[end] := NUL;
    assert data[start..end] == old(data[start..end]);
    StrcpyDown(data, start, end);
  }

  method LineEnd(data: array<Byte>, start: nat, last: nat) returns (end: nat)
    requires start <= last < data.Length
    ensures start <= end <= last && NL !in data[start..end]
    ensures end < last ==> data[end] == NL
  {
    end := start;
    while end < last && data[end] != NL
      invariant start <= end <= last && NL !in data[start..end]
    {
      end := end + 1;
    }
  }

  /** The buffer holds `b`, the text from `start` to `last`. */
  ghost predicate Holding(data: seq<Byte>, start: nat, last: nat, b: seq<Byte>) {
    && |data| == BUFSIZE + 1 && start <= last <= BUFSIZE && data[BUFSIZE] != NL
    && b == data[start..last] && NUL !in b
  }

  /** Prints the first line of what is held, `b`; `left` is what remains of it. */
  method FirstLine(data: array<Byte>, start: nat, last: nat, end: nat, ghost b: seq<Byte>, ghost rest: seq<Byte>,
        s: seq<Byte>, fname: seq<Byte>)
    returns (printed: seq<Byte>, ghost left: seq<Byte>)
    requires Holding(data[..], start, last, b) && start <= end <= last && NUL !in s
    requires NL !in data[start..end] && (end < last ==> data[end] == NL)
    requires end == last ==> last - start == BUFSIZE || rest == []
    modifies data
    ensures printed + Due(left + rest, s, fname) == Due(b + rest, s, fname)
    ensures end < last ==> Holding(data[..], end + 1, last, left)
    ensures end + 1 >= last ==> left == []
    ensures data[BUFSIZE] != NL
  {
    SliceOfSlice(data[..], start, end, last);
    NulFree(b, end - start);
    assert data[start..end] == b[..end - start];
    if end < last {
      SliceOfSlice(data[..], start, end + 1, last);
    }
    left := if end < last then b[end - start + 1..] else [];
    DueStep(b, end - start, rest, s, fname);
    printed := FinishLine(data, start, end, s, fname);
    assert end < last ==> data[end + 1..last] == old(data[..])[end + 1..last];
  }

  /** One pass over the buffer: `last` bytes are held, `cnt` came with the last read, `rest` is unread. */
  method SearchBuffer(data: array<Byte>, held: nat, cnt: nat, ghost rest: seq<Byte>, s: seq<Byte>, fname: seq<Byte>)
    returns (last: nat, out: seq<Byte>)
    requires data.Length == BUFSIZE + 1 && held <= BUFSIZE && data[BUFSIZE] != NL
    requires NUL !in data[..held] && NUL !in s
    // `read` fills the buffer unless the file has ended.
    requires (cnt == 0 ==> rest == []) && (rest != [] ==> held == BUFSIZE)
    modifies data
    ensures last < BUFSIZE && data[BUFSIZE] != NL && NUL !in data[..last]
    ensures cnt == 0 ==> last == 0
    ensures out + Due(data[..last] + rest, s, fname) == Due(old(data[..held]) + rest, s, fname)
  {
    last, out := held, [];
    var lineStart := 0;
    ghost var b := data[..held];
    ghost var due := Due(b + rest, s, fname);
    ghost var total := due;
    while true
      invariant last == held && Holding(data[..], lineStart, last, b)
      invariant due == Due(b + rest, s, fname) && out + due == total
      decreases last - lineStart
    {
      var lineEnd := LineEnd(data, lineStart, last);
      if data[lineEnd] != NL && cnt != 0 && lineStart != 0 {
        CarryDown(data, lineStart, lineEnd);
        last := last - lineStart;
        assert data[..last] == b;
        return;
      }
      var printed;
      printed, b := FirstLine(data, lineStart, last, lineEnd, b, rest, s, fname);
      due := Due(b + rest, s, fname);
      Associate(out, printed, due);
      out := out + printed;
      lineStart := lineEnd + 1;
      if lineStart >= last {
        last := 0;
        assert data[..0] == b;
        return;
      }
    }
  }

  /** A read that fills the buffer from `last` on, or reaches the end of the file. */
  method ReadInto(data: array<Byte>, last: nat, file: seq<Byte>, pos: nat) returns (cnt: nat)
    requires data.Length == BUFSIZE + 1 && last <= BUFSIZE && pos <= |file|
    modifies data
    ensures cnt == if |file| - pos <= BUFSIZE - last then |file| - pos else BUFSIZE - last
    ensures data[..last + cnt] == old(data[..last]) + file[pos..pos + cnt]
    ensures data[BUFSIZE] == old(data[BUFSIZE])
  {
    cnt := if |file| - pos <= BUFSIZE - last then |file| - pos else BUFSIZE - last;
    forall k | 0 <= k < cnt {
      data[last + k] := file[pos + k];
    }
  }

  lemma NothingDue(s: seq<Byte>, fname: seq<Byte>)
    ensures Due([], s, fname) == []
  {
    NoHitInEmpty(s);
    assert Pieces([]) == [[]];
    assert Report([[]], s, fname) == ReportLine([], s, fname) + Report([], s, fname);
  }

  /** One read and the pass over the buffer that follows it. */
  method Pass(data: array<Byte>, held: nat, file: seq<Byte>, pos: nat, s: seq<Byte>, fname: seq<Byte>)
    returns (last: nat, cnt: nat, out: seq<Byte>)
    requires data.Length == BUFSIZE + 1 && held < BUFSIZE && data[BUFSIZE] != NL && pos <= |file|
    requires NUL !in data[..held] && NUL !in file && NUL !in s
    modifies data
    ensures last < BUFSIZE && data[BUFSIZE] != NL && NUL !in data[..last]
    ensures pos + cnt <= |file| && (cnt == 0 ==> pos == |file| && last == 0)
    ensures out + Due(data[..last] + file[pos + cnt..], s, fname) == Due(old(data[..held]) + file[pos..], s, fname)
  {
    ghost var text := data[..held] + file[pos..];
    cnt := ReadInto(data, held, file, pos);
    assert data[..held + cnt] + file[pos + cnt..] == text;
    assert data[..held + cnt] == text[..held + cnt];
    last, out := SearchBuffer(data, held + cnt, cnt, file[pos + cnt..], s, fname);
  }

  /** The read loop; the read numbered `failAt`, if it comes to that, fails. */
  method SearchFile(data: array<Byte>, s: seq<Byte>, fname: seq<Byte>, file: seq<Byte>, failAt: int)
    returns (out: seq<Byte>, failed: bool)
    requires data.Length == BUFSIZE + 1 && data[BUFSIZE] != NL
    requires NUL !in file && NUL !in s
    modifies data
    ensures !failed ==> out == Report(Pieces(file), s, fname)
    ensures failed ==> out <= Report(Pieces(file), s, fname) && 0 <= failAt <= |file|
  {
    out := [];
    var last: nat, pos: nat, calls := 0, 0, 0;
    ghost var b := data[..0];
    assert b + file[0..] == file;
    while true
      invariant last < BUFSIZE && pos <= |file| && data[BUFSIZE] != NL
      invariant b == data[..last] && NUL !in b
      invariant 0 <= calls <= pos
      invariant out + Due(b + file[pos..], s, fname) == Due(file, s, fname)
      decreases |file| - pos
    {
      if calls == failAt {
        return out, true;
      }
      var cnt, printed;
      last, cnt, printed := Pass(data, last, file, pos, s, fname);
      assert (out + printed) + Due(data[..last] + file[pos + cnt..], s, fname) ==
             out + (printed + Due(data[..last] + file[pos + cnt..], s, fname));
      out, pos, calls := out + printed, pos + cnt, calls + 1;
      b := data[..last];
      if cnt == 0 {
        assert b + file[pos..] == [];
        NothingDue(s, fname);
        return out, false;
      }
    }
  }

  /**
   * The whole program for one file. Reads yield as much of the file as fits, except that the one
   * numbered `failAt` fails; `opens` and `closes` say whether those calls succeed. `data` is the
   * buffer with whatever it held before.
   */
  method DoOneFile(
    data: array<Byte>, s: seq<Byte>, fname: seq<Byte>, file: seq<Byte>, opens: bool, closes: bool, failAt: int)
    returns (rc: int, out: seq<Byte>, failed: bool)
    requires data.Length == BUFSIZE + 1 && data[BUFSIZE] != NL
    requires NUL !in file && NUL !in s && NUL !in fname
    modifies data
    ensures !opens ==> rc == -1 && out == Text("file open failed\n") && !failed
    ensures opens && !failed ==> rc == if closes then 0 else -1
    ensures opens && !failed ==>
      out == Report(Pieces(file), s, fname) + (if closes then [] else Text("file close failed\n"))
    // A failed read: only the start of the report has been printed.
    ensures failed ==> rc == -1 && 0 <= failAt <= |file|
    ensures failed ==> exists n | 0 <= n <= |Report(Pieces(file), s, fname)| ::
      out == Report(Pieces(file), s, fname)[..n] + Text("file read failed\n")
  {
    failed := false;
    if !opens {
      return -1, Text("file open failed\n"), false;
    }
    out, failed := SearchFile(data, s, fname, file, failAt);
    if failed {
      assert out == Report(Pieces(file), s, fname)[..|out|];
      return -1, out + Text("file read failed\n"), true;
    }
    if !closes {
      return -1, out + Text("file close failed\n"), false;
    }
    assert out + [] == out;
    return 0, out, false;
  }

  // ---------------------------------------------------------------- pieces and lines

  /** Empty lines are never searched. */
  function Searched(ls: seq<seq<Byte>>): seq<seq<Byte>> {
    if ls == [] then [] else (if ls[0] == [] then [] else [ls[0]]) + Searched(ls[1..])
  }

  lemma {:induction false} ReportSearched(ls: seq<seq<Byte>>, s: seq<Byte>, fname: seq<Byte>)
    ensures Report(ls, s, fname) == Report(Searched(ls), s, fname)
  {
    if ls != [] {
      ReportSearched(ls[1..], s, fname);
      if ls[0] == [] {
        NoHitInEmpty(s);
        assert Searched(ls) == Searched(ls[1..]);
      } else {
        assert Searched(ls)[1..] == Searched(ls[1..]);
      }
    }
  }

  ghost predicate NoLongLine(ls: seq<seq<Byte>>) {
    forall i :: 0 <= i < |ls| ==> |ls[i]| <= 1024
  }

  lemma Prepend(l: seq<Byte>, ls: seq<seq<Byte>>)
    ensures Searched([l] + ls) == (if l == [] then [] else [l]) + Searched(ls)
    ensures NoLongLine([l] + ls) <==> |l| <= BUFSIZE && NoLongLine(ls)
  {
  }

  lemma OnePiece(f: seq<Byte>)
    requires NewlineAt(f) == |f|
    ensures Lines(f) == [f] + [] && (|f| < BUFSIZE ==> Pieces(f) == [f] + [])
  {
  }

  lemma LastLine(f: seq<Byte>)
    requires NewlineAt(f) == |f| <= BUFSIZE
    ensures Searched(Pieces(f)) == Searched(Lines(f)) && NoLongLine(Lines(f))
  {
    OnePiece(f);
    Prepend(f, []);
    if |f| == BUFSIZE {
      CutEnd(f, []);
    }
  }

  /** A last line of exactly the buffer's size is followed by an empty piece. */
  lemma CutEnd(f: seq<Byte>, end: seq<Byte>)
    requires NewlineAt(f) == |f| == BUFSIZE && end == []
    ensures Searched(Pieces(f)) == [f]
  {
    assert f[..BUFSIZE] == f && f[BUFSIZE..] == end;
    assert Pieces(f) == [f] + Pieces(end);
    OnePiece(end);
    Prepend(end, []);
    Prepend(f, Pieces(end));
  }

  lemma OverlongLine(f: seq<Byte>)
    requires NewlineAt(f) > BUFSIZE
    ensures Searched(Pieces(f)) != Searched(Lines(f)) && !NoLongLine(Lines(f))
  {
    var n := NewlineAt(f);
    Prepend(f[..BUFSIZE], Pieces(f[BUFSIZE..]));
    var rest := if n == |f| then [] else Lines(f[n + 1..]);
    assert f[..|f|] == f;
    assert Lines(f) == [f[..n]] + rest;
    Prepend(f[..n], rest);
    assert |Searched(Pieces(f))[0]| == BUFSIZE && |Searched(Lines(f))[0]| == n;
  }

  lemma ShortPiece(f: seq<Byte>, n: nat)
    requires NewlineAt(f) == n < |f| && n < BUFSIZE
    ensures Searched(Pieces(f)) == (if n == 0 then [] else [f[..n]]) + Searched(Pieces(f[n + 1..]))
  {
  }

  /** A line of exactly the buffer's size leaves an empty piece behind. */
  lemma FullPiece(f: seq<Byte>)
    requires NewlineAt(f) == BUFSIZE < |f|
    ensures Searched(Pieces(f)) == [f[..BUFSIZE]] + Searched(Pieces(f[BUFSIZE + 1..]))
  {
    var g := f[BUFSIZE..];
    assert g[0] == NL && g[1..] == f[BUFSIZE + 1..] && g[..0] == [];
    assert NewlineAt(g) == 0 && Pieces(g) == [[]] + Pieces(g[1..]);
    Prepend([], Pieces(g[1..]));
    assert [] + Searched(Pieces(g[1..])) == Searched(Pieces(g[1..]));
    assert Pieces(f) == [f[..BUFSIZE]] + Pieces(g);
    Prepend(f[..BUFSIZE], Pieces(g));
  }

  lemma SameAfter<T>(h: seq<T>, x: seq<T>, y: seq<T>)
    ensures h + x == h + y <==> x == y
  {
    assert (h + x)[|h|..] == x && (h + y)[|h|..] == y;
  }

  /** What is searched are the lines of the file, exactly when none of them exceeds the buffer. */
  lemma {:induction false} PiecesAreLines(f: seq<Byte>)
    ensures Searched(Pieces(f)) == Searched(Lines(f)) <==> NoLongLine(Lines(f))
    decreases |f|
  {
    var n := NewlineAt(f);
    if n > BUFSIZE {
      OverlongLine(f);
    } else if n == |f| {
      LastLine(f);
    } else {
      if n < BUFSIZE {
        ShortPiece(f, n);
      } else {
        FullPiece(f);
      }
      PiecesAreLines(f[n + 1..]);
      Prepend(f[..n], Lines(f[n + 1..]));
      SameAfter(if n == 0 then [] else [f[..n]], Searched(Pieces(f[n + 1..])), Searched(Lines(f[n + 1..])));
    }
  }

  /** Without overlong lines the output is the matching lines of the file, once each and in order. */
  lemma PrintsMatchingLines(f: seq<Byte>, s: seq<Byte>, fname: seq<Byte>)
    requires NoLongLine(Lines(f))
    ensures Report(Pieces(f), s, fname) == Report(Lines(f), s, fname)
  {
    PiecesAreLines(f);
    ReportSearched(Pieces(f), s, fname);
    ReportSearched(Lines(f), s, fname);
  }

  // ---------------------------------------------------------------- what the report says

  /** A hit is a line that contains the string, if that begins with an ASCII byte. */
  lemma HitIsContains(line: seq<Byte>, s: seq<Byte>)
    ensures Hit(line, s) <==>
      s != [] && s[0] < 0x80 && exists i, j :: 0 <= i <= j <= |line| && line[i..j] == s
  {
    if Hit(line, s) {
      var i: nat :| MatchAt(line, s, i);
      assert line[i..i + |s|] == s;
    }
    if i, j :| 0 <= i <= j <= |line| && line[i..j] == s {
      assert MatchAt(line, s, i);
    }
  }

  /** The lines to report: for each hit, in order, the file's name, a colon and the line. */
  ghost function ReportedLines(lines: seq<seq<Byte>>, s: seq<Byte>, fname: seq<Byte>): seq<seq<Byte>> {
    if lines == [] then []
    else
      var l := lines[0];
      (if Hit(l, s) then [fname + Text(":") + l] else []) + ReportedLines(lines[1..], s, fname)
  }

  lemma {:induction false} LinesAfter(l: seq<Byte>, rest: seq<Byte>)
    requires NL !in l
    ensures Lines(l + [NL] + rest) == [l] + Lines(rest)
  {
    if l == [] {
      assert l + [NL] + rest == [NL] + rest;
      LinesCons(NL, rest);
    } else {
      var t := l[1..] + [NL] + rest;
      assert l + [NL] + rest == [l[0]] + t;
      assert l[0] in l;
      LinesCons(l[0], t);
      LinesAfter(l[1..], rest);
      assert [l[0]] + l[1..] == l;
    }
  }

  /** Read as a text, the report consists of exactly these lines, each ended by a newline. */
  lemma {:induction false} ReportIsLines(lines: seq<seq<Byte>>, s: seq<Byte>, fname: seq<Byte>)
    requires NL !in fname && forall i :: 0 <= i < |lines| ==> NL !in lines[i]
    ensures Lines(Report(lines, s, fname)) == ReportedLines(lines, s, fname) + [[]]
  {
    if lines != [] {
      var l, rest := lines[0], Report(lines[1..], s, fname);
      ReportIsLines(lines[1..], s, fname);
      if Hit(l, s) {
        OneReport(l, fname);
        LinesAfter(fname + Text(":") + l, rest);
        Associate([fname + Text(":") + l], ReportedLines(lines[1..], s, fname), [[]]);
      } else {
        assert [] + rest == rest;
        assert [] + ReportedLines(lines[1..], s, fname) == ReportedLines(lines[1..], s, fname);
      }
    }
  }

  lemma OneReport(l: seq<Byte>, fname: seq<Byte>)
    requires NL !in l && NL !in fname
    ensures fname + [Ascii(':')] + l + [NL] == (fname + Text(":") + l) + [NL]
    ensures NL !in fname + Text(":") + l
  {
    assert Text(":") == [Ascii(':')];
  }

  lemma {:induction false} LinesHaveNoNewline(f: seq<Byte>)
    ensures forall i :: 0 <= i < |Lines(f)| ==> NL !in Lines(f)[i]
    decreases |f|
  {
    var n := NewlineAt(f);
    if n == |f| {
      assert f[..n] == f;
    } else {
      LinesHaveNoNewline(f[n + 1..]);
    }
  }

  /** So the output for a file without overlong lines says which of its lines contain the string. */
  lemma ReportsMatchingLines(f: seq<Byte>, s: seq<Byte>, fname: seq<Byte>)
    requires NoLongLine(Lines(f)) && NL !in fname
    ensures Lines(Report(Pieces(f), s, fname)) == ReportedLines(Lines(f), s, fname) + [[]]
  {
    PrintsMatchingLines(f, s, fname);
    LinesHaveNoNewline(f);
    ReportIsLines(Lines(f), s, fname);
  }
}
