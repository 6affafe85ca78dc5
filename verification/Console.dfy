/**
 * The text console of student-distrib/lib.c: a 25x80 displayed window kept as a copy of part of
 * a long saved buffer, a cursor in unsigned 32-bit arithmetic, and the VGA cursor registers.
 *
 * `View` is the console as its users see it: the text written so far, the row at the top of the
 * window and the colour. `Screen` is the code, and each of its methods is proved to carry out
 * the corresponding function on `View`.
 */
module Console {
  import opened Bytes

  const NUM_COLS := 80
  const NUM_ROWS := 25
  const WINDOW := NUM_ROWS * NUM_COLS
  const CAPACITY := (0x400000 - 0x100000) / 2
  /** The last cursor row whose whole window still lies in the saved buffer. */
  const MAX_ROW := 19635

  // ---------------------------------------------------------------- the console as its users see it

  /** `text` holds every cell before the cursor in reading order; every later cell is blank. */
  datatype View = View(text: seq<Byte>, top: nat, attr: bv8)

  function Row(v: View): nat {
    |v.text| / NUM_COLS
  }

  function Cell(text: seq<Byte>, i: nat): Byte {
    if i < |text| then text[i] else SPACE
  }

  /** Moves to the start of the next row; the rest of the current row stays blank. */
  function NextRow(text: seq<Byte>): (t: seq<Byte>)
    ensures text <= t
    ensures |t| == NUM_COLS * (|text| / NUM_COLS + 1)
    ensures forall i :: 0 <= i ==> Cell(t, i) == Cell(text, i)
  {
    text + seq(NUM_COLS - |text| % NUM_COLS, _ => SPACE)
  }

  function Clamp(x: int, hi: nat): (r: nat)
    ensures r <= hi
  {
    if x < 0 then 0 else if x > hi then hi else x
  }

  /** The window stays where it is while the cursor row is in it; otherwise that row becomes the bottom one. */
  function Follow(top: nat, row: nat): (r: nat) {
    if top <= row < top + NUM_ROWS then top else Clamp(row - NUM_ROWS + 1, row)
  }

  function Write(text: seq<Byte>, c: Byte): seq<Byte>
    requires c == BS ==> text != []
  {
    if c == NL || c == CR then NextRow(text)
    else if c == BS then text[..|text| - 1]
    else text + [c]
  }

  /** After any character the cursor row is one of the 25 displayed rows. */
  function Put(v: View, c: Byte): (w: View)
    requires c == BS ==> v.text != []
    ensures w.top <= Row(w) < w.top + NUM_ROWS
  {
    var t := Write(v.text, c);
    View(t, Follow(v.top, |t| / NUM_COLS), v.attr)
  }

  lemma PutRow(v: View, c: Byte)
    requires c == BS ==> v.text != []
    ensures Row(Put(v, c)) <= Row(v) + 1 && (c != BS ==> Row(v) <= Row(Put(v, c)))
  {
  }

  /** Clearing changes no cell: it moves the window and the cursor past every written one. */
  function Clear(v: View): (w: View)
    ensures forall i :: 0 <= i ==> Cell(w.text, i) == Cell(v.text, i)
    ensures NUM_COLS * w.top == |w.text| > |v.text| && w.top == Row(v) + 1 && w.attr == v.attr
  {
    var t := NextRow(v.text);
    View(t, |t| / NUM_COLS, v.attr)
  }

  function Scroll(v: View, offset: int): View {
    v.(top := Clamp(v.top + offset, Row(v)))
  }

  function NextFont(a: bv8): bv8 {
    (a & 0xF8) + (((a & 0x7) + 1) % 0x8)
  }

  function NextBackground(a: bv8): bv8 {
    (a & 0x8F) + (((((a & 0x70) >> 4) + 1) % 0x8) << 4)
  }

  // ---------------------------------------------------------------- the code

  datatype Glyph = Glyph(ch: Byte, attr: bv8)

  class Screen {
    var attrib: bv8
    var cursorX: nat
    var cursorY: nat
    var screenOffset: nat
    var cursorEnabled: bool
    const video: array<Glyph>
    const saved: array<Glyph>
    // VGA registers 0x0A (cursor start), 0x0F and 0x0E (cursor position).
    var cursorStart: bv8
    var positionLow: Byte
    var positionHigh: Byte

    /** The cells before the cursor, in reading order. */
    ghost var text: seq<Byte>

    ghost predicate Sized() {
      video.Length == WINDOW && saved.Length == CAPACITY && video != saved
    }

    /** The saved buffer holds the text, then blanks, all in the current colour. */
    ghost predicate SavedMatches()
      reads this, saved
    {
      && Sized()
      && cursorX < NUM_COLS && cursorY <= MAX_ROW
      && |text| == NUM_COLS * cursorY + cursorX
      && forall j :: 0 <= j < CAPACITY ==> saved[j] == Glyph(Cell(text, j), attrib)
    }

    /** The displayed window is a copy of 25 rows of the saved buffer. */
    ghost predicate WindowMatches()
      reads this, video, saved
    {
      && Sized()
      && screenOffset <= MAX_ROW
      && forall i :: 0 <= i < WINDOW ==> video[i] == saved[NUM_COLS * screenOffset + i]
    }

    /** `cursorEnabled` says what the disable bit of the hardware says. */
    ghost predicate EnableMatches()
      reads this
    {
      cursorEnabled <==> cursorStart & 0x20 == 0
    }

    /** The hardware cursor is shown exactly when its row is displayed, and then at the right cell. */
    ghost predicate CursorMatches()
      reads this
    {
      && EnableMatches()
      && (cursorEnabled <==> screenOffset <= cursorY < screenOffset + NUM_ROWS)
      && (cursorEnabled ==>
            0x100 * positionHigh + positionLow == NUM_COLS * (cursorY - screenOffset) + cursorX < WINDOW)
    }

    ghost predicate Valid()
      reads this, video, saved
    {
      SavedMatches() && WindowMatches() && CursorMatches() && screenOffset <= cursorY
    }

    ghost function Current(): View
      reads this
    {
      View(text, screenOffset, attrib)
    }

    function ScreenY(): nat
      reads this
    {
      U32(cursorY - screenOffset)
    }

    /** Uninitialised memory and registers. */
    constructor (videoMemory: array<Glyph>, savedMemory: array<Glyph>, startRegister: bv8)
      requires videoMemory.Length == WINDOW && savedMemory.Length == CAPACITY && videoMemory != savedMemory
      ensures Sized() && video == videoMemory && saved == savedMemory
      ensures cursorStart == startRegister
    {
      video, saved := videoMemory, savedMemory;
      cursorX, cursorY, screenOffset, cursorEnabled, attrib, text := 0, 0, 0, false, 0, [];
      cursorStart, positionLow, positionHigh := startRegister, 0, 0;
    }

    method UpdateCursor()
      requires cursorX < NUM_COLS && cursorY <= MAX_ROW && screenOffset <= MAX_ROW
      modifies `cursorEnabled, `cursorStart, `positionLow, `positionHigh
      ensures old(EnableMatches()) <==> EnableMatches()
      ensures EnableMatches() ==> CursorMatches()
      ensures EnableMatches() ==> cursorStart & 0xDF == old(cursorStart) & 0xDF
      ensures EnableMatches() && !cursorEnabled ==>
        positionLow == old(positionLow) && positionHigh == old(positionHigh)
    {
      if ScreenY() >= NUM_ROWS {
        if cursorEnabled {
          cursorStart := cursorStart + 0x20;
          cursorEnabled := false;
        }
        return;
      }
      if !cursorEnabled {
        cursorStart := cursorStart - 0x20;
        cursorEnabled := true;
      }
      var position := ScreenY() * NUM_COLS + cursorX;
      positionLow := position % 0x100;
      positionHigh := position / 0x100;
    }

    method ScreenInit()
      requires Sized()
      modifies this, video, saved
      ensures SavedMatches() && WindowMatches() && screenOffset <= cursorY
      ensures Current() == View([], 0, 0x2)
      // Initialisation never reads the hardware, so it is right exactly when the cursor was on.
      ensures Valid() <==> old(cursorStart) & 0x20 == 0
    {
      cursorX, cursorY, screenOffset, cursorEnabled, text := 0, 0, 0, true, [];
      UpdateCursor();
      attrib := 0x2;
      for i := 0 to WINDOW
        modifies video
        invariant forall k :: 0 <= k < i ==> video[k] == Glyph(SPACE, attrib)
      {
        video[i] := Glyph(SPACE, attrib);
      }
      for i := 0 to CAPACITY
        modifies saved
        invariant forall k :: 0 <= k < i ==> saved[k] == Glyph(SPACE, attrib)
      {
        saved[i] := Glyph(SPACE, attrib);
      }
    }

    method ClearScreen()
      requires Valid() && cursorY < MAX_ROW
      modifies this, video, saved
      ensures Valid() && Current() == Clear(old(Current()))
    {
      text := NextRow(text);
      cursorX := 0;
      cursorY := U32(cursorY + 1);
      screenOffset := cursorY;
      UpdateCursor();
      for i := 0 to WINDOW
        modifies video, saved
        invariant SavedMatches()
        invariant forall k :: 0 <= k < i ==> video[k] == Glyph(SPACE, attrib)
      {
        video[i] := Glyph(SPACE, attrib);
        saved[NUM_COLS * screenOffset + i] := Glyph(SPACE, attrib);
      }
    }

    /** The two cases in which `scroll` returns without touching the display. */
    ghost predicate AtLimit(offset: int)
      reads this
    {
      || (offset + screenOffset < 0 && screenOffset == 0)
      || (0 <= cursorY < screenOffset + offset && screenOffset == cursorY)
    }

    /**
     * `putc` and `update_color` call this while the display is out of date, and `putc` also while
     * the cursor is one row above the window; only an early return needs the display to be right.
     */
    method ScrollBy(amount: int)
      requires -0x8000_0000 <= amount && amount + screenOffset < 0x8000_0000
      requires SavedMatches() && EnableMatches() && screenOffset <= MAX_ROW
      requires AtLimit(amount) ==> Valid()
      modifies `screenOffset, `cursorEnabled, `cursorStart, `positionLow, `positionHigh, video
      ensures Valid()
      ensures screenOffset == Clamp(old(screenOffset) + amount, cursorY)
    {
      var offset: int := amount;
      if offset + screenOffset < 0 {
        if screenOffset == 0 {
          return;
        }
        offset := 0 - screenOffset;
      } else if screenOffset + offset > cursorY {
        if screenOffset == cursorY {
          return;
        }
        offset := cursorY - screenOffset;
      }
      screenOffset := U32(screenOffset + offset);
      for i := 0 to WINDOW
        modifies video
        invariant forall k :: 0 <= k < i ==> video[k] == saved[NUM_COLS * screenOffset + k]
      {
        video[i] := saved[NUM_COLS * screenOffset + i];
      }
      UpdateCursor();
    }

    method UpdateColor()
      requires Sized() && cursorX < NUM_COLS && screenOffset <= cursorY <= MAX_ROW
      requires |text| == NUM_COLS * cursorY + cursorX && EnableMatches()
      requires forall j :: 0 <= j < CAPACITY ==> saved[j].ch == Cell(text, j)
      modifies `screenOffset, `cursorEnabled, `cursorStart, `positionLow, `positionHigh, video, saved
      ensures Valid() && screenOffset == old(screenOffset)
    {
      for i := 0 to CAPACITY
        modifies saved
        invariant forall k :: 0 <= k < i ==> saved[k] == Glyph(Cell(text, k), attrib)
        invariant forall k :: i <= k < CAPACITY ==> saved[k].ch == Cell(text, k)
      {
        saved[i] := saved[i].(attr := attrib);
      }
      ScrollBy(0);
    }

    method FontColor()
      requires Valid()
      modifies this, video, saved
      ensures Valid() && Current() == old(Current()).(attr := NextFont(old(attrib)))
    {
      var color := attrib & 0x7;
      color := (color + 1) % 0x8;
      attrib := attrib & 0xF8;
      attrib := attrib + color;
      UpdateColor();
    }

    method BackgroundColor()
      requires Valid()
      modifies this, video, saved
      ensures Valid() && Current() == old(Current()).(attr := NextBackground(old(attrib)))
    {
      var color := (attrib & 0x70) >> 4;
      color := (color + 1) % 0x8;
      attrib := attrib & 0x8F;
      attrib := attrib + (color << 4);
      UpdateColor();
    }

    /** What holds inside `putc` once the text has changed: the window is right if it holds the cursor. */
    ghost predicate Pending()
      reads this, video, saved
    {
      && SavedMatches() && EnableMatches() && screenOffset <= MAX_ROW && screenOffset <= cursorY + 1
      && (screenOffset <= cursorY < screenOffset + NUM_ROWS ==> WindowMatches())
    }

    /** Stores one glyph in the saved buffer, and in the window when the cursor row is displayed. */
    method Store(c: Byte)
      requires Sized() && cursorX < NUM_COLS && cursorY <= MAX_ROW && screenOffset <= MAX_ROW
      modifies video, saved
      ensures forall j :: 0 <= j < CAPACITY ==>
        saved[j] == if j == NUM_COLS * cursorY + cursorX then Glyph(c, attrib) else old(saved[j])
      ensures screenOffset <= cursorY < screenOffset + NUM_ROWS && old(WindowMatches()) ==> WindowMatches()
    {
      if ScreenY() < NUM_ROWS {
        video[NUM_COLS * ScreenY() + cursorX] := Glyph(c, attrib);
      }
      saved[NUM_COLS * cursorY + cursorX] := Glyph(c, attrib);
    }

    method NewLine()
      requires Valid() && cursorY < MAX_ROW
      modifies `text, `cursorX, `cursorY
      ensures Pending() && text == NextRow(old(text))
    {
      text := NextRow(text);
      cursorY := U32(cursorY + 1);
      cursorX := 0;
    }

    method Erase()
      requires Valid() && text != []
      modifies `text, `cursorX, `cursorY, video, saved
      ensures Pending() && text == old(text)[..|old(text)| - 1]
    {
      text := text[..|text| - 1];
      if cursorX == 0 {
        cursorY := U32(cursorY - 1);
        cursorX := NUM_COLS - 1;
      } else {
        cursorX := cursorX - 1;
      }
      Store(SPACE);
    }

    method Append(c: Byte)
      requires Valid() && (|text| + 1) / NUM_COLS <= MAX_ROW
      modifies `text, `cursorX, `cursorY, video, saved
      ensures Pending() && text == old(text) + [c]
    {
      Store(c);
      text := text + [c];
      cursorX := cursorX + 1;
      cursorY := cursorY + cursorX / NUM_COLS;
      cursorX := cursorX % NUM_COLS;
    }

    /** The end of `putc`. */
    method ShowCursorRow()
      requires Pending()
      modifies `screenOffset, `cursorEnabled, `cursorStart, `positionLow, `positionHigh, video
      ensures Valid() && screenOffset == Follow(old(screenOffset), cursorY)
    {
      // An unsigned distance of 25 or more also means that the cursor is above the window.
      if ScreenY() >= NUM_ROWS {
        ScrollBy(S32(ScreenY() - NUM_ROWS + 1));
      } else {
        UpdateCursor();
      }
    }

    method Putc(c: Byte)
      requires Valid()
      requires c == BS ==> text != []
      requires Row(Put(Current(), c)) <= MAX_ROW
      modifies this, video, saved
      ensures Valid() && Current() == Put(old(Current()), c)
    {
      if c == NL || c == CR {
        NewLine();
      } else if c == BS {
        Erase();
      } else {
        Append(c);
      }
      ShowCursorRow();
    }

    method Puts(s: seq<Byte>) returns (index: nat)
      requires Valid() && NUL !in s
      requires Fits(Current(), Chars(s))
      modifies this, video, saved
      ensures Valid() && Current() == PutAll(old(Current()), s)
      ensures index == |s|
    {
      index := 0;
      while index < |s|
        invariant index <= |s| && Valid()
        invariant Fits(Current(), Chars(s[index..]))
        invariant PutAll(Current(), s[index..]) == PutAll(old(Current()), s)
      {
        assert s[index..][1..] == s[index + 1..];
        assert Chars(s[index..]) == [Char(s[index])] + Chars(s[index + 1..]);
        Putc(s[index]);
        index := index + 1;
      }
    }

    method Perform(op: Op)
      requires Valid() && Allowed(Current(), op)
      modifies this, video, saved
      ensures Valid() && Current() == Apply(old(Current()), op)
    {
      match op {
        case Char(c) => Putc(c);
        case ClearAll => ClearScreen();
        case Move(n) => ScrollBy(n);
        case Font => FontColor();
        case Background => BackgroundColor();
      }
    }

    /** Any run of console operations keeps every invariant in `Valid` and does what `Apply` says. */
    method Run(ops: seq<Op>)
      requires Valid() && Fits(Current(), ops)
      modifies this, video, saved
      ensures Valid() && Current() == ApplyAll(old(Current()), ops)
    {
      for i := 0 to |ops|
        invariant Valid() && Fits(Current(), ops[i..])
        invariant ApplyAll(Current(), ops[i..]) == ApplyAll(old(Current()), ops)
      {
        assert ops[i..][1..] == ops[i + 1..];
        Perform(ops[i]);
      }
    }

    /** Printing characters and then erasing them leaves the saved buffer and the cursor as they were. */
    method PrintThenErase(s: seq<Byte>)
      requires Valid() && Printable(s)
      requires (|text| + |s|) / NUM_COLS <= MAX_ROW
      modifies this, video, saved
      ensures Valid() && saved[..] == old(saved[..])
      ensures cursorX == old(cursorX) && cursorY == old(cursorY)
    {
      PrintedThenErased(Current(), s);
      Run(Chars(s + Backspaces(|s|)));
      ApplyChars(old(Current()), s + Backspaces(|s|));
    }
  }

  // ---------------------------------------------------------------- runs of operations

  datatype Op = Char(c: Byte) | ClearAll | Move(offset: int) | Font | Background

  /** The row limit of the saved buffer, the guard of `terminal.c` on backspace, and no signed overflow. */
  predicate Allowed(v: View, op: Op) {
    match op
    case Char(c) => (c == BS ==> v.text != []) && Row(Put(v, c)) <= MAX_ROW
    case ClearAll => Row(v) < MAX_ROW
    case Move(n) => -0x8000_0000 <= n && n + v.top < 0x8000_0000
    case _ => true
  }

  function Apply(v: View, op: Op): View
    requires Allowed(v, op)
  {
    match op
    case Char(c) => Put(v, c)
    case ClearAll => Clear(v)
    case Move(n) => Scroll(v, n)
    case Font => v.(attr := NextFont(v.attr))
    case Background => v.(attr := NextBackground(v.attr))
  }

  predicate Fits(v: View, ops: seq<Op>)
    decreases |ops|
  {
    ops == [] || (Allowed(v, ops[0]) && Fits(Apply(v, ops[0]), ops[1..]))
  }

  function ApplyAll(v: View, ops: seq<Op>): View
    requires Fits(v, ops)
    decreases |ops|
  {
    if ops == [] then v else ApplyAll(Apply(v, ops[0]), ops[1..])
  }

  function Chars(s: seq<Byte>): (ops: seq<Op>) {
    seq(|s|, i requires 0 <= i < |s| => Char(s[i]))
  }

  function PutAll(v: View, s: seq<Byte>): View
    requires Fits(v, Chars(s))
    decreases |s|
  {
    if s == [] then v
    else
      assert Chars(s)[1..] == Chars(s[1..]);
      PutAll(Put(v, s[0]), s[1..])
  }

  lemma {:induction false} ApplyChars(v: View, s: seq<Byte>)
    requires Fits(v, Chars(s))
    ensures ApplyAll(v, Chars(s)) == PutAll(v, s)
    decreases |s|
  {
    if s != [] {
      assert Chars(s)[1..] == Chars(s[1..]);
      ApplyChars(Put(v, s[0]), s[1..]);
    }
  }

  // ---------------------------------------------------------------- what the operations promise

  /** Scrolling back undoes a scroll exactly when the first one was not cut short, or both were. */
  lemma ScrollUndo(v: View, n: int)
    requires v.top <= Row(v)
    ensures Scroll(Scroll(v, n), -n) == v <==>
      0 <= v.top + n <= Row(v) || (n < 0 && v.top == Row(v)) || (n > 0 && v.top == 0)
  {
  }

  function Distance(a: int, b: int): nat {
    if a < b then b - a else a - b
  }

  /** Scrolling comes as near to the row asked for as there are rows, and changes nothing else. */
  lemma ScrollsNearest(v: View, n: int, row: nat)
    requires row <= Row(v)
    ensures var w := Scroll(v, n);
      w == v.(top := w.top) && w.top <= Row(v) && Distance(w.top, v.top + n) <= Distance(row, v.top + n)
  {
  }

  /** Two scrolls in the same direction are one. */
  lemma ScrollsAddUp(v: View, a: int, b: int)
    requires v.top <= Row(v) && ((a <= 0 && b <= 0) || (a >= 0 && b >= 0))
    ensures Scroll(Scroll(v, a), b) == Scroll(v, a + b)
  {
  }

  /**
   * Where a character leaves the window: it stays while the cursor row is in it; a cursor below it
   * is brought to the bottom row, and so is one above it, unless there are fewer than 24 rows before.
   */
  lemma PutScrolls(v: View, c: Byte)
    requires c == BS ==> v.text != []
    ensures var w := Put(v, c);
      && 80 * Row(w) <= |w.text| < 80 * Row(w) + 80
      && (v.top <= Row(w) < v.top + 25 ==> w.top == v.top)
      && (v.top + 25 <= Row(w) ==> w.top == Row(w) - 24)
      && (Row(w) < v.top ==> w.top == if Row(w) < 24 then 0 else Row(w) - 24)
  {
  }

  /** Printing scrolls no further than it takes to show the last row at the bottom. */
  lemma {:induction false} ShowsLastRows(v: View, s: seq<Byte>)
    requires Fits(v, Chars(s)) && BS !in s && v.top <= Row(v) < v.top + 25
    ensures var w := PutAll(v, s);
      Row(v) <= Row(w) && w.top == (if Row(w) < v.top + 25 then v.top else Row(w) - 24) && w.attr == v.attr
    decreases |s|
  {
    if s != [] {
      assert Chars(s)[1..] == Chars(s[1..]) && s[0] in s;
      PutScrolls(v, s[0]);
      PutRow(v, s[0]);
      ShowsLastRows(Put(v, s[0]), s[1..]);
    }
  }

  function Newlines(s: seq<Byte>): (t: seq<Byte>)
    ensures |t| == |s|
  {
    seq(|s|, i requires 0 <= i < |s| => if s[i] == CR then NL else s[i])
  }

  /** A carriage return does what a newline does. */
  lemma {:induction false} ReturnsAreNewlines(v: View, s: seq<Byte>)
    requires Fits(v, Chars(s))
    ensures Fits(v, Chars(Newlines(s))) && PutAll(v, Newlines(s)) == PutAll(v, s)
    decreases |s|
  {
    if s != [] {
      assert Chars(s)[1..] == Chars(s[1..]);
      assert Newlines(s)[1..] == Newlines(s[1..]);
      assert Chars(Newlines(s))[1..] == Chars(Newlines(s[1..]));
      ReturnsAreNewlines(Put(v, s[0]), s[1..]);
    }
  }

  predicate Printable(s: seq<Byte>) {
    forall i :: 0 <= i < |s| ==> s[i] != NL && s[i] != CR && s[i] != BS
  }

  function Backspaces(n: nat): seq<Byte> {
    seq(n, _ => BS)
  }

  lemma {:induction false} PutAppend(v: View, a: seq<Byte>, b: seq<Byte>)
    requires Fits(v, Chars(a)) && Fits(PutAll(v, a), Chars(b))
    ensures Fits(v, Chars(a + b)) && PutAll(v, a + b) == PutAll(PutAll(v, a), b)
    decreases |a|
  {
    if a == [] {
      assert a + b == b;
    } else {
      assert (a + b)[1..] == a[1..] + b;
      assert Chars(a)[1..] == Chars(a[1..]) && Chars(a + b)[1..] == Chars(a[1..] + b);
      PutAppend(Put(v, a[0]), a[1..], b);
    }
  }

  /** A text that fits can be put in two parts. */
  lemma {:induction false} PutSplit(v: View, a: seq<Byte>, b: seq<Byte>)
    requires Fits(v, Chars(a + b))
    ensures Fits(v, Chars(a)) && Fits(PutAll(v, a), Chars(b))
    ensures PutAll(v, a + b) == PutAll(PutAll(v, a), b)
    decreases |a|
  {
    if a == [] {
      assert a + b == b;
    } else {
      assert (a + b)[1..] == a[1..] + b;
      assert Chars(a)[1..] == Chars(a[1..]) && Chars(a + b)[1..] == Chars(a[1..] + b);
      PutSplit(Put(v, a[0]), a[1..], b);
    }
  }

  lemma {:induction false} PutPrintable(v: View, s: seq<Byte>)
    requires Printable(s) && (|v.text| + |s|) / NUM_COLS <= MAX_ROW
    ensures Fits(v, Chars(s))
    ensures PutAll(v, s).text == v.text + s && PutAll(v, s).attr == v.attr
    decreases |s|
  {
    if s == [] {
      assert v.text + s == v.text;
    } else {
      assert Chars(s)[1..] == Chars(s[1..]);
      assert v.text + s == (v.text + [s[0]]) + s[1..];
      PutPrintable(Put(v, s[0]), s[1..]);
    }
  }

  lemma {:induction false} PutBackspaces(v: View, n: nat)
    requires n <= |v.text| && Row(v) <= MAX_ROW
    ensures Fits(v, Chars(Backspaces(n)))
    ensures PutAll(v, Backspaces(n)).text == v.text[..|v.text| - n] && PutAll(v, Backspaces(n)).attr == v.attr
    decreases n
  {
    if n > 0 {
      assert Backspaces(n)[1..] == Backspaces(n - 1);
      assert Chars(Backspaces(n))[1..] == Chars(Backspaces(n - 1));
      PutBackspaces(Put(v, BS), n - 1);
    }
  }

  /** Printing any characters and then that many backspaces restores the text, across rows and scrolls. */
  lemma PrintedThenErased(v: View, s: seq<Byte>)
    requires Printable(s) && (|v.text| + |s|) / NUM_COLS <= MAX_ROW
    ensures Fits(v, Chars(s + Backspaces(|s|)))
    ensures PutAll(v, s + Backspaces(|s|)).text == v.text && PutAll(v, s + Backspaces(|s|)).attr == v.attr
  {
    PutPrintable(v, s);
    var w := PutAll(v, s);
    PutBackspaces(w, |s|);
    assert w.text[..|w.text| - |s|] == v.text;
    PutAppend(v, s, Backspaces(|s|));
  }

  /** Where a text of several lines goes: each line is followed by a move to the next row. */
  function Layout(text: seq<Byte>, lines: seq<seq<Byte>>): seq<Byte>
    requires lines != []
    decreases |lines|
  {
    if |lines| == 1 then text + lines[0] else Layout(NextRow(text + lines[0]), lines[1..])
  }

  lemma LayoutStep(text: seq<Byte>, c: Byte, lines: seq<seq<Byte>>)
    requires lines != []
    ensures Layout(text, [[]] + lines) == Layout(NextRow(text), lines)
    ensures Layout(text, [[c] + lines[0]] + lines[1..]) == Layout(text + [c], lines)
  {
    assert text + [] == text;
    assert ([[]] + lines)[1..] == lines;
    assert text + ([c] + lines[0]) == (text + [c]) + lines[0];
  }

  /** Printing a text lays out its lines, whatever wraps and scrolls on the way. */
  lemma {:induction false} PutsLaysOutLines(v: View, s: seq<Byte>)
    requires Fits(v, Chars(s)) && CR !in s && BS !in s
    ensures PutAll(v, s).text == Layout(v.text, Lines(s))
    decreases |s|
  {
    if s == [] {
      assert v.text + s == v.text;
    } else {
      assert Chars(s)[1..] == Chars(s[1..]);
      assert s == [s[0]] + s[1..];
      LinesCons(s[0], s[1..]);
      LayoutStep(v.text, s[0], Lines(s[1..]));
      PutsLaysOutLines(Put(v, s[0]), s[1..]);
    }
  }

  /** A press adds one to the colour, modulo 8. */
  lemma ColoursStep(a: bv8)
    ensures NextFont(a) & 0x7 == (a + 1) & 0x7
    ensures NextBackground(a) & 0x70 == (a + 0x10) & 0x70
  {
  }

  function FourTimes(f: bv8 -> bv8, a: bv8): bv8 {
    f(f(f(f(a))))
  }

  /** Eight presses of a colour key come back to the first colour, four do not, and the other colour is kept. */
  lemma ColoursCycle(a: bv8)
    ensures FourTimes(NextFont, FourTimes(NextFont, a)) == a != FourTimes(NextFont, a)
    ensures FourTimes(NextBackground, FourTimes(NextBackground, a)) == a != FourTimes(NextBackground, a)
    ensures NextFont(a) & 0xF8 == a & 0xF8 && NextBackground(a) & 0x8F == a & 0x8F
  {
  }
}
