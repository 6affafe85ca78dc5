/**
 * Command-line arguments in syscalls/ece391emulate.c: the splitter in `ece391_execute`, which cuts
 * a command up in place, and the joiner `ece391_getargs`.
 */
module Args {
  import opened Bytes

  const COMMAND_LIMIT := 1023

  // ---------------------------------------------------------------- words

  predicate Ends(c: Byte) {
    c == SPACE || c == NL
  }

  /** The length of the word at the start of a text. */
  function WordEnd(s: seq<Byte>): (n: nat)
    ensures n <= |s| && (n < |s| ==> Ends(s[n]))
  {
    if s == [] || Ends(s[0]) then 0 else 1 + WordEnd(s[1..])
  }

  /** The number of spaces at the start of a text. */
  function Spaces(s: seq<Byte>): (n: nat)
    ensures n <= |s| && (n < |s| ==> s[n] != SPACE)
  {
    if s == [] || s[0] != SPACE then 0 else 1 + Spaces(s[1..])
  }

  /** The rest of a text after its first word and the character that ends it. */
  function AfterWord(s: seq<Byte>): (r: seq<Byte>)
    ensures |r| <= |s| && (s != [] ==> |r| < |s|)
  {
    if WordEnd(s) < |s| then s[WordEnd(s) + 1..] else []
  }

  /** The words of the text that follows a command's name. A newline that does not end a word ends them all. */
  function Words(s: seq<Byte>): (ws: seq<seq<Byte>>)
    decreases |s|
  {
    var t := s[Spaces(s)..];
    if t == [] || t[0] == NL then [] else [t[..WordEnd(t)]] + Words(AfterWord(t))
  }

  /** The arguments that a command is split into, without its name. */
  function Arguments(command: seq<Byte>): seq<seq<Byte>> {
    Words(AfterWord(command))
  }

  function Join(ws: seq<seq<Byte>>): seq<Byte> {
    if ws == [] then [] else if |ws| == 1 then ws[0] else ws[0] + [SPACE] + Join(ws[1..])
  }

  /** Every word takes at least one character and one to end it. */
  lemma {:induction false} WordsCount(s: seq<Byte>)
    ensures 2 * |Words(s)| <= |s| + 1
    decreases |s|
  {
    var t := s[Spaces(s)..];
    if t != [] && t[0] != NL {
      WordsCount(AfterWord(t));
    }
  }

  // ---------------------------------------------------------------- the splitter

  /** The strings of `ws` lie in the buffer at `at`, all of them before `limit`. */
  ghost predicate Placed(buf: seq<Byte>, at: seq<nat>, ws: seq<seq<Byte>>, limit: nat) {
    |at| == |ws| && forall k :: 0 <= k < |ws| ==> at[k] + |ws[k]| <= limit && StringAt(buf, at[k], ws[k])
  }

  method SkipWord(buf: array<Byte>, start: nat, ghost rest: seq<Byte>) returns (scan: nat)
    requires StringAt(buf[..], start, rest)
    ensures scan == start + WordEnd(rest)
  {
    scan := start;
    ghost var r := rest;
    while buf[scan] != NUL && !Ends(buf[scan])
      invariant StringAt(buf[..], scan, r) && scan + |r| == start + |rest|
      invariant scan + WordEnd(r) == start + WordEnd(rest)
      decreases |r|
    {
      NextChar(buf[..], scan, r);
      scan, r := scan + 1, r[1..];
    }
    NextChar(buf[..], scan, r);
  }

  method SkipSpaces(buf: array<Byte>, start: nat, ghost rest: seq<Byte>) returns (scan: nat)
    requires StringAt(buf[..], start, rest)
    ensures scan == start + Spaces(rest)
  {
    scan := start;
    ghost var r := rest;
    while buf[scan] == SPACE
      invariant StringAt(buf[..], scan, r) && scan + |r| == start + |rest|
      invariant scan + Spaces(r) == start + Spaces(rest)
      decreases |r|
    {
      NextChar(buf[..], scan, r);
      scan, r := scan + 1, r[1..];
    }
    NextChar(buf[..], scan, r);
  }

  lemma NextChar(buf: seq<Byte>, at: nat, s: seq<Byte>)
    requires StringAt(buf, at, s)
    ensures buf[at] == NUL <==> s == []
    ensures s != [] ==> buf[at] == s[0] && StringAt(buf, at + 1, s[1..])
  {
  }

  /** Only NULs were stored, and none before `scan`. */
  ghost predicate OnlyCut(before: seq<Byte>, after: seq<Byte>, scan: nat) {
    |before| == |after| && forall j :: 0 <= j < |after| ==> after[j] == before[j] || (scan <= j && after[j] == NUL)
  }

  lemma StillPlaced(before: seq<Byte>, after: seq<Byte>, at: seq<nat>, ws: seq<seq<Byte>>, scan: nat)
    requires Placed(before, at, ws, scan) && OnlyCut(before, after, scan)
    ensures Placed(after, at, ws, scan)
  {
  }

  /** The part of the text at `at` up to `n`, once a NUL ends it, and what follows the NUL. */
  lemma CutAt(buf: seq<Byte>, at: nat, s: seq<Byte>, n: nat)
    requires StringAt(buf, at, s) && n <= |s|
    ensures StringAt(buf[at + n := NUL], at, s[..n])
    ensures n < |s| ==> StringAt(buf[at + n := NUL], at + n + 1, s[n + 1..])
    ensures StringAt(buf, at + n, s[n..])
  {
  }

  /** The string at `start`, once the character that ends its first word, at `scan`, is cut. */
  lemma CutHere(buf: seq<Byte>, start: nat, t: seq<Byte>, scan: nat)
    requires StringAt(buf, start, t) && scan == start + WordEnd(t)
    ensures buf[scan] == NUL ==> StringAt(buf, start, t[..WordEnd(t)]) && StringAt(buf, scan, AfterWord(t))
    ensures buf[scan] != NUL ==>
      var after := buf[scan := NUL];
      StringAt(after, start, t[..WordEnd(t)]) && StringAt(after, scan + 1, AfterWord(t))
  {
    CutAt(buf, start, t, WordEnd(t));
    NextChar(buf, scan, t[WordEnd(t)..]);
    if WordEnd(t) == |t| {
      assert t[..WordEnd(t)] == t && t[WordEnd(t)..] == AfterWord(t);
    }
  }

  /** Passes over a word and replaces the character that ends it. */
  method CutWord(buf: array<Byte>, start: nat, ghost t: seq<Byte>) returns (scan: nat)
    requires StringAt(buf[..], start, t)
    modifies buf
    ensures OnlyCut(old(buf[..]), buf[..], start)
    ensures StringAt(buf[..], start, t[..WordEnd(t)]) && start + WordEnd(t) <= scan
    ensures StringAt(buf[..], scan, AfterWord(t))
  {
    scan := SkipWord(buf, start, t);
    CutHere(buf[..], start, t, scan);
    if buf[scan] != NUL {
      buf[scan] := NUL;
      assert buf[..] == old(buf[..])[scan := NUL];
      scan := scan + 1;
    }
  }

  /** One turn of the splitting loop: the next argument, if there is one, is at `start`. */
  method NextArgument(buf: array<Byte>, from: nat, ghost rest: seq<Byte>)
    returns (found: bool, start: nat, scan: nat, ghost left: seq<Byte>)
    requires StringAt(buf[..], from, rest)
    modifies buf
    ensures OnlyCut(old(buf[..]), buf[..], from)
    ensures found <==> Words(rest) != []
    ensures found ==> Words(rest)[1..] == Words(left) && |left| < |rest|
    ensures found ==> from <= start && start + |Words(rest)[0]| <= scan && StringAt(buf[..], start, Words(rest)[0])
    ensures found ==> StringAt(buf[..], scan, left)
  {
    start := SkipSpaces(buf, from, rest);
    ghost var t := rest[Spaces(rest)..];
    CutAt(buf[..], from, rest, Spaces(rest));
    NextChar(buf[..], start, t);
    scan, left := start, AfterWord(t);
    if buf[start] == NUL || buf[start] == NL {
      buf[start] := NUL;
      return false, start, scan, left;
    }
    scan := CutWord(buf, start, t);
    found := true;
  }

  function Program(command: seq<Byte>): seq<Byte> {
    [Ascii('.'), Ascii('/')] + command[..WordEnd(command)]
  }

  /** Stores "./" and the command at the start of the buffer. */
  method CopyCommand(buf: array<Byte>, command: seq<Byte>)
    requires buf.Length == COMMAND_LIMIT + 3 && |command| <= COMMAND_LIMIT && NUL !in command
    modifies buf
    ensures buf[0] == Ascii('.') && buf[1] == Ascii('/') && StringAt(buf[..], 2, command)
  {
    buf[0] := Ascii('.');
    buf[1] := Ascii('/');
    for i := 0 to |command|
      invariant buf[0] == Ascii('.') && buf[1] == Ascii('/') && buf[2..2 + i] == command[..i]
    {
      buf[2 + i] := command[i];
    }
    buf[2 + |command|] := NUL;
  }

  lemma PlaceOne(
    before: seq<Byte>, after: seq<Byte>, at: seq<nat>, ws: seq<seq<Byte>>, from: nat,
    start: nat, w: seq<Byte>, scan: nat)
    requires Placed(before, at, ws, from) && OnlyCut(before, after, from)
    requires from <= start && start + |w| <= scan && StringAt(after, start, w)
    ensures Placed(after, at + [start], ws + [w], scan)
  {
  }

  /** The body of the parsing loop; `args` are the starts of the arguments found so far, `words`. */
  method AddArgument(buf: array<Byte>, from: nat, first: seq<nat>, ghost words: seq<seq<Byte>>, ghost text: seq<Byte>)
    returns (more: bool, args: seq<nat>, scan: nat, ghost left: seq<Byte>)
    requires Placed(buf[..], first, words, from) && StringAt(buf[..], from, text)
    modifies buf
    ensures more <==> Words(text) != []
    ensures !more ==> args == first && Placed(buf[..], args, words, from)
    ensures more ==> Placed(buf[..], args, words + [Words(text)[0]], scan) && StringAt(buf[..], scan, left)
    ensures more ==> |left| < |text| && Words(text)[1..] == Words(left)
  {
    var start;
    ghost var before := buf[..];
    more, start, scan, left := NextArgument(buf, from, text);
    args := first;
    if more {
      PlaceOne(before, buf[..], first, words, from, start, Words(text)[0], scan);
      args := first + [start];
    } else {
      StillPlaced(before, buf[..], first, words, from);
    }
  }

  /** The parsing loop: adds the arguments in the text at `from` to those found. */
  method SplitWords(buf: array<Byte>, from: nat, first: seq<nat>, ghost found: seq<seq<Byte>>, ghost text: seq<Byte>)
    returns (args: seq<nat>)
    requires Placed(buf[..], first, found, from) && StringAt(buf[..], from, text)
    modifies buf
    ensures Placed(buf[..], args, found + Words(text), buf.Length)
  {
    args := first;
    var scan, more := from, true;
    ghost var words, left := found, text;
    while more
      invariant Placed(buf[..], args, words, scan)
      invariant more ==> StringAt(buf[..], scan, left)
      invariant words + Words(left) == found + Words(text)
      invariant !more ==> Words(left) == []
      decreases more, |left|
    {
      var next;
      ghost var rest;
      more, args, next, rest := AddArgument(buf, scan, args, words, left);
      if more {
        OneMoreWord(words, Words(left));
        words, left, scan := words + [Words(left)[0]], rest, next;
      }
    }
    assert words == found + Words(text);
  }

  lemma OneMoreWord(words: seq<seq<Byte>>, more: seq<seq<Byte>>)
    requires more != []
    ensures words + more == (words + [more[0]]) + more[1..]
  {
  }

  lemma NamePlaced(buf: seq<Byte>, command: seq<Byte>, scan: nat)
    requires StringAt(buf, 2, command[..WordEnd(command)]) && buf[0] == Ascii('.') && buf[1] == Ascii('/')
    requires 2 + WordEnd(command) <= scan
    ensures Placed(buf, [0], [Program(command)], scan)
  {
  }

  /** The splitter of `ece391_execute`: `args` are the starts of the argument strings in `buf`. */
  method Split(buf: array<Byte>, command: seq<Byte>) returns (rc: int, args: seq<nat>)
    requires buf.Length == COMMAND_LIMIT + 3 && NUL !in command
    modifies buf
    ensures rc == -1 <==> |command| > 1023
    ensures rc == -1 ==> args == [] && buf[..] == old(buf[..])
    ensures rc != -1 ==> Placed(buf[..], args, [Program(command)] + Arguments(command), buf.Length)
    ensures |args| <= 512
  {
    if |command| > COMMAND_LIMIT {
      return -1, [];
    }
    CopyCommand(buf, command);
    var scan := CutWord(buf, 2, command);
    NamePlaced(buf[..], command, scan);
    args := SplitWords(buf, scan, [0], [Program(command)], AfterWord(command));
    WordsCount(AfterWord(command));
    return 0, args;
  }

  // ---------------------------------------------------------------- the joiner

  /** The arguments from the first one to before `k`, joined. */
  function Joint(argv: seq<seq<Byte>>, k: nat): seq<Byte>
    requires 1 <= k <= |argv|
    decreases k, 0
  {
    if k == 1 then [] else Lead(argv, k - 1) + argv[k - 1]
  }

  /** What comes before argument `k` in the joined text. */
  function Lead(argv: seq<seq<Byte>>, k: nat): seq<Byte>
    requires 1 <= k <= |argv|
    decreases k, 1
  {
    if k == 1 then [] else Joint(argv, k) + [SPACE]
  }

  lemma {:induction false} JoinLonger(ws: seq<seq<Byte>>, w: seq<Byte>)
    ensures Join(ws + [w]) == if ws == [] then w else Join(ws) + [SPACE] + w
  {
    if |ws| > 1 {
      assert (ws + [w])[1..] == ws[1..] + [w];
      JoinLonger(ws[1..], w);
      Associate(ws[0] + [SPACE], Join(ws[1..]) + [SPACE], w);
      Associate(ws[0] + [SPACE], Join(ws[1..]), [SPACE]);
    }
  }

  lemma {:induction false} JointIsJoin(argv: seq<seq<Byte>>, k: nat)
    requires 1 <= k <= |argv|
    ensures Joint(argv, k) == Join(argv[1..k])
    decreases k
  {
    if k > 1 {
      JointIsJoin(argv, k - 1);
      assert argv[1..k] == argv[1..k - 1] + [argv[k - 1]];
      JoinLonger(argv[1..k - 1], argv[k - 1]);
      assert [] + argv[k - 1] == argv[k - 1];
    }
  }

  lemma {:induction false} JointGrows(argv: seq<seq<Byte>>, j: nat, k: nat)
    requires 1 < j <= k <= |argv|
    ensures |Joint(argv, j)| + (k - j) <= |Joint(argv, k)|
    decreases k
  {
    if j < k {
      JointGrows(argv, j, k - 1);
    }
  }

  /** Some of the arguments, from the first one on, join to exactly `nbytes` characters. */
  ghost predicate ExactFit(argv: seq<seq<Byte>>, nbytes: int) {
    exists k :: 2 <= k <= |argv| && |Join(argv[1..k])| == nbytes
  }

  lemma Fit(argv: seq<seq<Byte>>, nbytes: int, k: nat)
    requires 2 <= k <= |argv| && |Joint(argv, k)| == nbytes
    ensures ExactFit(argv, nbytes)
  {
    JointIsJoin(argv, k);
  }

  /** No exact fit: the arguments before `k` are shorter, and the next one is longer than the rest of the room. */
  lemma Misfit(argv: seq<seq<Byte>>, nbytes: int, k: nat)
    requires 1 <= k <= |argv| && (k > 1 ==> |Joint(argv, k)| < nbytes)
    requires k < |argv| ==> |Joint(argv, k + 1)| > nbytes
    ensures !ExactFit(argv, nbytes)
  {
    forall j | 2 <= j <= |argv| ensures |Join(argv[1..j])| != nbytes {
      JointIsJoin(argv, j);
      if j <= k {
        JointGrows(argv, j, k);
      } else {
        JointGrows(argv, k + 1, j);
      }
    }
  }

  lemma JointAll(argv: seq<seq<Byte>>)
    requires argv != []
    ensures Joint(argv, |argv|) == Join(argv[1..])
  {
    assert argv[1..] == argv[1..|argv|];
    JointIsJoin(argv, |argv|);
  }

  /** The buffer begins with `text` and is as it was from `end` on. */
  ghost predicate Stored(before: seq<Byte>, buf: seq<Byte>, text: seq<Byte>, end: nat) {
    && |text| <= end && text <= buf && |buf| == |before|
    && forall j :: end <= j < |buf| ==> buf[j] == before[j]
  }

  /** What is stored past the size that the caller gave: a NUL or nothing. */
  ghost predicate Overrun(before: seq<Byte>, buf: seq<Byte>, nbytes: int, fit: bool) {
    && |before| == |buf|
    && (0 <= nbytes < |buf| ==> buf[nbytes] == if fit then NUL else before[nbytes])
    && forall j :: 0 <= j < |buf| && nbytes < j ==> buf[j] == before[j]
  }

  /** The arguments before `k` are stored, with the space after them. */
  ghost predicate Joining(before: seq<Byte>, buf: seq<Byte>, argv: seq<seq<Byte>>, k: nat, at: nat, room: int) {
    && 1 <= k <= |argv| && at == |Lead(argv, k)| && (at == 0 || room >= 0)
    && Stored(before, buf, Lead(argv, k), at)
  }

  /** The arguments before `k` are stored, with a NUL after the last one. */
  ghost predicate Copied(before: seq<Byte>, buf: seq<Byte>, argv: seq<seq<Byte>>, k: nat, at: nat, room: nat) {
    && 1 < k <= |argv| && at == |Joint(argv, k)|
    && Stored(before, buf, Joint(argv, k), at + 1)
    && Overrun(before, buf, at + room, room == 0)
  }

  /** How the loop of `ece391_getargs` ends. */
  ghost predicate JoinEnds(before: seq<Byte>, buf: seq<Byte>, argv: seq<seq<Byte>>, rc: int, at: nat, room: int)
    requires argv != []
  {
    var all, nbytes := Join(argv[1..]), at + room;
    && (rc == 0 || rc == -1)
    && (rc == -1 ==> |all| > nbytes)
    && (rc == 0 ==> at == |all| && Stored(before, buf, all, at + 1))
    && Overrun(before, buf, nbytes, ExactFit(argv, nbytes))
  }

  /** Too long an argument means too long a text. */
  lemma TooLong(before: seq<Byte>, buf: seq<Byte>, argv: seq<seq<Byte>>, k: nat, at: nat, room: int)
    requires Joining(before, buf, argv, k, at, room) && k < |argv| && |argv[k]| > room
    ensures JoinEnds(before, buf, argv, -1, at, room)
  {
    Misfit(argv, at + room, k);
    JointGrows(argv, k + 1, |argv|);
    JointAll(argv);
  }

  lemma NoArguments(before: seq<Byte>, argv: seq<seq<Byte>>, room: int)
    requires |argv| == 1
    ensures JoinEnds(before, before, argv, 0, 0, room)
  {
    Misfit(argv, room, 1);
  }

  /** The loop ends after the last argument, or when no room is left for a space. */
  lemma CopiedLast(before: seq<Byte>, buf: seq<Byte>, argv: seq<seq<Byte>>, k: nat, at: nat, room: nat)
    requires Copied(before, buf, argv, k, at, room) && (k == |argv| || room == 0)
    ensures JoinEnds(before, buf, argv, if k == |argv| then 0 else -1, at, room)
  {
    if room == 0 {
      Fit(argv, at, k);
    } else {
      Misfit(argv, at + room, k);
    }
    JointGrows(argv, k, |argv|);
    JointAll(argv);
  }

  /** Copies one argument, with its NUL, to `at`. */
  method CopyString(buf: array<Byte>, at: nat, s: seq<Byte>)
    requires at + |s| < buf.Length
    modifies buf
    ensures buf[..at + |s|] == old(buf[..at]) + s && buf[at + |s|] == NUL
    ensures forall j :: at + |s| < j < buf.Length ==> buf[j] == old(buf[j])
  {
    for i := 0 to |s|
      invariant buf[..at] == old(buf[..at]) && buf[at..at + i] == s[..i]
      invariant forall j :: at + i <= j < buf.Length ==> buf[j] == old(buf[j])
    {
      buf[at + i] := s[i];
    }
    buf[at + |s|] := NUL;
    assert buf[..at + |s|] == buf[..at] + buf[at..at + |s|];
  }

  /** Copies argument `k`, which fits in the room left, and its NUL. */
  method CopyArgument(argv: seq<seq<Byte>>, k: nat, buf: array<Byte>, at: nat, room: nat, ghost before: seq<Byte>)
    requires Joining(before, buf[..], argv, k, at, room) && k < |argv| && |argv[k]| <= room
    requires at + room <= buf.Length && (at + room == buf.Length ==> !ExactFit(argv, at + room))
    modifies buf
    ensures Copied(before, buf[..], argv, k + 1, at + |argv[k]|, room - |argv[k]|)
  {
    if |argv[k]| == room {
      Fit(argv, at + room, k + 1);
    }
    CopyString(buf, at, argv[k]);
    assert buf[..at + |argv[k]|] == Joint(argv, k + 1);
  }

  /** Stores the space before argument `k`. */
  method StoreSpace(argv: seq<seq<Byte>>, k: nat, buf: array<Byte>, at: nat, room: nat, ghost before: seq<Byte>)
    requires Copied(before, buf[..], argv, k, at, room) && k < |argv| && room > 0 && at < buf.Length
    modifies buf
    ensures Joining(before, buf[..], argv, k, at + 1, room - 1)
  {
    buf[at] := SPACE;
    assert buf[..at + 1] == Lead(argv, k);
  }

  /** One turn of the loop of `ece391_getargs`; `more` when there is another one. */
  method JoinArgument(argv: seq<seq<Byte>>, k: nat, buf: array<Byte>, start: nat, left: int, ghost before: seq<Byte>)
    returns (more: bool, rc: int, at: nat, room: int)
    requires Joining(before, buf[..], argv, k, start, left) && k < |argv|
    requires start + left <= buf.Length && (start + left == buf.Length ==> !ExactFit(argv, start + left))
    modifies buf
    ensures at + room == start + left
    ensures more ==> k + 1 < |argv| && Joining(before, buf[..], argv, k + 1, at, room)
    ensures !more ==> JoinEnds(before, buf[..], argv, rc, at, room)
  {
    var len := |argv[k]|;
    if len > left {
      TooLong(before, buf[..], argv, k, start, left);
      return false, -1, start, left;
    }
    CopyArgument(argv, k, buf, start, left, before);
    at, room := start + len, left - len;
    if k + 1 >= |argv| || room < 1 {
      CopiedLast(before, buf[..], argv, k + 1, at, room);
      return false, if k + 1 >= |argv| then 0 else -1, at, room;
    }
    StoreSpace(argv, k + 1, buf, at, room, before);
    return true, 0, at + 1, room - 1;
  }

  /** The loop of `ece391_getargs`. */
  method JoinArguments(argv: seq<seq<Byte>>, buf: array<Byte>, nbytes: int) returns (rc: int, at: nat, room: int)
    requires argv != [] && nbytes <= buf.Length
    requires nbytes == buf.Length ==> !ExactFit(argv, nbytes)
    modifies buf
    ensures at + room == nbytes && JoinEnds(old(buf[..]), buf[..], argv, rc, at, room)
  {
    ghost var before := buf[..];
    var idx, more := 1, |argv| > 1;
    rc, at, room := 0, 0, nbytes;
    if !more {
      NoArguments(before, argv, nbytes);
    }
    while more
      invariant at + room == nbytes
      invariant more ==> 1 <= idx < |argv| && Joining(before, buf[..], argv, idx, at, room)
      invariant !more ==> JoinEnds(before, buf[..], argv, rc, at, room)
      decreases more, |argv| - idx
    {
      more, rc, at, room := JoinArgument(argv, idx, buf, at, room, before);
      idx := idx + 1;
    }
  }

  /**
   * `ece391_getargs`: joins all but the first of `argv` with spaces. The copy stores its NUL before
   * the room for it is checked: at `buf[nbytes]`, past the size that the caller gave, exactly when
   * there is an exact fit. Nothing else past that size is stored.
   */
  method Getargs(argv: seq<seq<Byte>>, buf: array<Byte>, nbytes: int) returns (rc: int)
    requires argv != [] && nbytes <= buf.Length
    requires nbytes == buf.Length ==> !ExactFit(argv, nbytes)
    requires forall k :: 0 <= k < |argv| ==> NUL !in argv[k]
    modifies buf
    ensures rc == 0 || rc == -1
    ensures rc == 0 <==> |Join(argv[1..])| < nbytes
    ensures rc == 0 ==> StringAt(buf[..], 0, Join(argv[1..]))
    ensures rc == 0 ==> forall j :: |Join(argv[1..])| < j < buf.Length ==> buf[j] == old(buf[j])
    ensures 0 <= nbytes < buf.Length ==> buf[nbytes] == if ExactFit(argv, nbytes) then NUL else old(buf[nbytes])
    ensures forall j :: 0 <= j < buf.Length && nbytes < j ==> buf[j] == old(buf[j])
  {
    JoinNulFree(argv[1..]);
    var at: nat, room;
    rc, at, room := JoinArguments(argv, buf, nbytes);
    if rc == -1 || room < 1 {
      return -1;
    }
    buf[at] := NUL;
    return 0;
  }

  lemma {:induction false} JoinNulFree(ws: seq<seq<Byte>>)
    requires forall k :: 0 <= k < |ws| ==> NUL !in ws[k]
    ensures NUL !in Join(ws)
  {
    if ws != [] {
      JoinNulFree(ws[1..]);
    }
  }

  /** An argument of the caller's whole size overruns it, whatever that size is. */
  lemma OverrunExample(nbytes: nat)
    ensures ExactFit([Text("cat"), seq(nbytes, _ => Ascii('a'))], nbytes)
  {
    var argv := [Text("cat"), seq(nbytes, _ => Ascii('a'))];
    assert argv[1..2] == [argv[1]];
    assert |Join(argv[1..2])| == nbytes;
  }

  // ---------------------------------------------------------------- splitting and joining

  /** A text without leading, trailing or repeated spaces; `gap` when a space is owed. */
  function Squeeze(s: seq<Byte>, gap: bool): seq<Byte> {
    if s == [] then []
    else if s[0] == SPACE then Squeeze(s[1..], true)
    else (if gap then [SPACE] else []) + [s[0]] + Squeeze(s[1..], false)
  }

  function Normal(s: seq<Byte>): seq<Byte> {
    Squeeze(s[Spaces(s)..], false)
  }

  lemma {:induction false} SqueezeSpaces(s: seq<Byte>)
    ensures Squeeze(s, true) == if Spaces(s) == |s| then [] else [SPACE] + Normal(s)
  {
    if s != [] && s[0] == SPACE {
      SqueezeSpaces(s[1..]);
      assert s[Spaces(s)..] == s[1..][Spaces(s[1..])..];
    } else if s != [] {
      assert s[0..] == s;
      assert [SPACE] + [s[0]] + Squeeze(s[1..], false) == [SPACE] + ([s[0]] + Squeeze(s[1..], false));
      assert [] + [s[0]] + Squeeze(s[1..], false) == [s[0]] + Squeeze(s[1..], false);
    }
  }

  lemma {:induction false} SqueezeWordThen(w: seq<Byte>, u: seq<Byte>)
    requires forall i :: 0 <= i < |w| ==> !Ends(w[i])
    ensures Squeeze(w + u, false) == w + Squeeze(u, false)
  {
    if w == [] {
      assert w + u == u && w + Squeeze(u, false) == Squeeze(u, false);
    } else {
      assert (w + u)[1..] == w[1..] + u;
      SqueezeWordThen(w[1..], u);
      assert [w[0]] + (w[1..] + Squeeze(u, false)) == w + Squeeze(u, false);
    }
  }

  lemma NormalOfMore(w: seq<Byte>, u: seq<Byte>)
    requires forall i :: 0 <= i < |w| ==> !Ends(w[i])
    requires u != [] && u[0] == SPACE
    ensures Squeeze(w + u, false) == if Spaces(u[1..]) == |u[1..]| then w else w + [SPACE] + Normal(u[1..])
  {
    SqueezeWordThen(w, u);
    SqueezeSpaces(u[1..]);
    assert w + [] == w;
    assert w + ([SPACE] + Normal(u[1..])) == (w + [SPACE]) + Normal(u[1..]);
  }

  lemma {:induction false} WordIsWord(s: seq<Byte>)
    ensures forall i :: 0 <= i < WordEnd(s) ==> !Ends(s[i])
  {
    if s != [] && !Ends(s[0]) {
      WordIsWord(s[1..]);
      assert forall i :: 1 <= i < WordEnd(s) ==> s[i] == s[1..][i - 1];
    }
  }

  /** A text is its first word, followed by nothing or by a space and more. */
  lemma NormalStep(s: seq<Byte>, t: seq<Byte>)
    requires NL !in t && t == s[Spaces(s)..] && t != []
    ensures var w, r := t[..WordEnd(t)], AfterWord(t);
      Normal(s) == if WordEnd(t) == |t| || Spaces(r) == |r| then w else w + [SPACE] + Normal(r)
  {
    var w, u := t[..WordEnd(t)], t[WordEnd(t)..];
    WordIsWord(t);
    assert w + u == t;
    if u == [] {
      SqueezeWordThen(w, u);
      assert w + [] == w;
    } else {
      assert u[0] in t && u[1..] == AfterWord(t);
      NormalOfMore(w, u);
    }
  }

  lemma SpacesOfNothing(s: seq<Byte>)
    requires s == []
    ensures Spaces(s) == |s| && Words(s) == []
  {
  }

  /** Joining the words of a text that has no newline gives it back with its spaces normalised. */
  lemma {:induction false} JoinWords(s: seq<Byte>)
    requires NL !in s
    ensures Join(Words(s)) == Normal(s)
    ensures Words(s) == [] <==> Spaces(s) == |s|
    decreases |s|
  {
    var t := s[Spaces(s)..];
    SuffixFree(s, Spaces(s));
    if t != [] {
      var w, r := t[..WordEnd(t)], AfterWord(t);
      assert t[0] in t;
      NormalStep(s, t);
      if WordEnd(t) < |t| {
        SuffixFree(t, WordEnd(t) + 1);
      } else {
        SpacesOfNothing(r);
      }
      JoinWords(r);
      assert ([w] + Words(r))[1..] == Words(r);
    }
  }

  lemma SuffixFree(s: seq<Byte>, n: nat)
    requires NL !in s && n <= |s|
    ensures NL !in s[n..]
  {
  }

  lemma {:induction false} WordEndWithNewline(s: seq<Byte>)
    ensures WordEnd(s + [NL]) == WordEnd(s)
  {
    if s != [] && !Ends(s[0]) {
      assert (s + [NL])[1..] == s[1..] + [NL];
      WordEndWithNewline(s[1..]);
    }
  }

  lemma {:induction false} SpacesWithNewline(s: seq<Byte>)
    ensures Spaces(s + [NL]) == Spaces(s)
  {
    if s != [] && s[0] == SPACE {
      assert (s + [NL])[1..] == s[1..] + [NL];
      SpacesWithNewline(s[1..]);
    }
  }

  lemma AfterWordIs(s: seq<Byte>, n: nat, r: seq<Byte>)
    requires n == WordEnd(s) && r == if n < |s| then s[n + 1..] else []
    ensures AfterWord(s) == r
  {
  }

  lemma AfterWordWithNewline(s: seq<Byte>)
    ensures AfterWord(s + [NL]) == if WordEnd(s) < |s| then AfterWord(s) + [NL] else []
  {
    WordEndWithNewline(s);
    var n := WordEnd(s);
    if n < |s| {
      DropOne(s, n);
      AfterWordIs(s + [NL], n, s[n + 1..] + [NL]);
    } else {
      AfterWordIs(s + [NL], n, []);
    }
  }

  lemma DropOne(s: seq<Byte>, n: nat)
    requires n < |s|
    ensures (s + [NL])[n + 1..] == s[n + 1..] + [NL]
  {
  }

  /** A newline at the end of a command makes no difference. */
  lemma {:induction false} WordsWithNewline(s: seq<Byte>)
    ensures Words(s + [NL]) == Words(s)
    decreases |s|
  {
    SpacesWithNewline(s);
    var t := s[Spaces(s)..];
    assert (s + [NL])[Spaces(s)..] == t + [NL];
    if t != [] && t[0] != NL {
      WordEndWithNewline(t);
      AfterWordWithNewline(t);
      assert (t + [NL])[..WordEnd(t)] == t[..WordEnd(t)];
      if WordEnd(t) < |t| {
        WordsWithNewline(AfterWord(t));
      }
    }
  }

  /** What `getargs` gives for a split command is the text after its name with spaces normalised. */
  lemma SplitThenJoin(body: seq<Byte>)
    requires NL !in body
    ensures Join(Arguments(body)) == Join(Arguments(body + [NL])) == Normal(AfterWord(body))
  {
    assert forall c :: c in AfterWord(body) ==> c in body;
    JoinWords(AfterWord(body));
    AfterWordWithNewline(body);
    WordsWithNewline(AfterWord(body));
  }

  lemma NameFirst(name: seq<Byte>, s: seq<Byte>)
    requires SPACE !in name && NL !in name && (s == [] || s[0] == SPACE)
    ensures Program(name + s) == Text("./") + name
    ensures AfterWord(name + s) == if s == [] then [] else s[1..]
  {
    assert forall i :: 0 <= i < |name| ==> name[i] in name;
    WordEndIs(name, s);
    assert (name + s)[..|name|] == name;
    AfterWordIs(name + s, |name|, if s == [] then [] else s[1..]);
    assert Text("./") == [Ascii('.'), Ascii('/')];
  }

  /** A command of a name, a space and more: its program and its arguments. */
  lemma NameAndArguments(name: seq<Byte>, rest: seq<Byte>)
    requires SPACE !in name && NL !in name
    ensures Program(name + [SPACE] + rest) == Program(name) == Text("./") + name
    ensures Arguments(name + [SPACE] + rest) == Words(rest) && Arguments(name) == []
    ensures NL !in rest ==> Join(Arguments(name + [SPACE] + rest)) == Normal(rest)
  {
    var s := [SPACE] + rest;
    assert name + [SPACE] + rest == name + s && name + [] == name && s[1..] == rest;
    NameFirst(name, s);
    NameFirst(name, []);
    if NL !in rest {
      JoinWords(rest);
    }
  }

  lemma {:induction false} JoinWordsFit(s: seq<Byte>)
    ensures |Join(Words(s))| <= |s|
    decreases |s|
  {
    var t := s[Spaces(s)..];
    if t != [] && t[0] != NL {
      JoinWordsFit(AfterWord(t));
      assert Words(s)[1..] == Words(AfterWord(t));
    }
  }

  /** The arguments of a command of accepted length always fit a buffer of that many bytes, with their NUL. */
  lemma SplitFits(command: seq<Byte>, nbytes: nat)
    requires |command| <= 1023 <= nbytes
    ensures var argv := [Program(command)] + Arguments(command);
      |Join(argv[1..])| < nbytes && !ExactFit(argv, nbytes)
  {
    var argv := [Program(command)] + Arguments(command);
    assert argv[1..] == Arguments(command);
    JoinWordsFit(AfterWord(command));
    JointAll(argv);
    Misfit(argv, nbytes, |argv|);
  }

  ghost predicate IsWord(w: seq<Byte>) {
    w != [] && forall i :: 0 <= i < |w| ==> !Ends(w[i])
  }

  ghost predicate AreWords(ws: seq<seq<Byte>>) {
    forall k :: 0 <= k < |ws| ==> IsWord(ws[k])
  }

  lemma {:induction false} WordsAreWords(s: seq<Byte>)
    ensures AreWords(Words(s))
    decreases |s|
  {
    var t := s[Spaces(s)..];
    if t != [] && t[0] != NL {
      WordIsWord(t);
      assert IsWord(t[..WordEnd(t)]);
      var ws := Words(AfterWord(t));
      WordsAreWords(AfterWord(t));
      assert AreWords([t[..WordEnd(t)]] + ws);
    }
  }

  lemma {:induction false} WordEndIs(w: seq<Byte>, s: seq<Byte>)
    requires forall i :: 0 <= i < |w| ==> !Ends(w[i])
    requires s == [] || Ends(s[0])
    ensures WordEnd(w + s) == |w|
  {
    if w != [] {
      assert (w + s)[1..] == w[1..] + s;
      WordEndIs(w[1..], s);
    } else {
      assert w + s == s;
    }
  }

  lemma WordsFrom(s: seq<Byte>)
    requires s != [] && !Ends(s[0])
    ensures Words(s) == [s[..WordEnd(s)]] + Words(AfterWord(s))
  {
    assert s[0..] == s;
  }

  lemma WordThen(w: seq<Byte>, rest: seq<Byte>)
    requires IsWord(w) && (rest == [] || Ends(rest[0]))
    ensures Words(w + rest) == [w] + Words(if rest == [] then [] else rest[1..])
  {
    var s := w + rest;
    WordEndIs(w, rest);
    WordsFrom(s);
    assert s[..WordEnd(s)] == w;
    AfterWordIs(s, |w|, if rest == [] then [] else rest[1..]);
  }

  /** Splitting joined words gives the words back. */
  lemma {:induction false} WordsOfJoin(ws: seq<seq<Byte>>)
    requires AreWords(ws)
    ensures Words(Join(ws)) == ws
    decreases |ws|
  {
    if ws == [] {
      return;
    }
    var w, more := ws[0], ws[1..];
    assert ws == [w] + more;
    if more == [] {
      WordThen(w, []);
      assert w + [] == w;
    } else {
      var rest := [SPACE] + Join(more);
      Associate(w, [SPACE], Join(more));
      assert rest[1..] == Join(more);
      WordThen(w, rest);
      WordsOfJoin(more);
    }
  }

  /** Splitting what `getargs` gives yields the same arguments again. */
  lemma ResplitIsStable(command: seq<Byte>)
    ensures Words(Join(Arguments(command))) == Arguments(command)
  {
    WordsAreWords(AfterWord(command));
    WordsOfJoin(Arguments(command));
  }
}
