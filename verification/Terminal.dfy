/**
 * The keyboard line editor of student-distrib/terminal.c over the console.
 *
 * `Editor` and `Press` describe the editor on values: which line has been typed and what has been
 * echoed. `Terminal` is the code with its `typed` buffer and flags, proved to carry them out.
 */
module Terminal {
  import opened Bytes
  import Console

  const LINE_LIMIT := 10

  // ---------------------------------------------------------------- scancodes

  /** A scancode, and the byte that the table lookup happens to find past the tables' 128 entries. */
  datatype Key = Key(code: Byte, stray: Byte)

  /** A row of graphic characters on the keyboard. */
  type KeyRow = s: string | forall i :: 0 <= i < |s| ==> '!' <= s[i] <= '~'

  const ROW1: KeyRow := "1234567890-="
  const ROW2: KeyRow := "qwertyuiop[]"
  const ROW3: KeyRow := "asdfghjkl;'`"
  const ROW4: KeyRow := "\\zxcvbnm,./"
  const SHIFT_ROW1: KeyRow := "!@#$%^&*()_+"
  const SHIFT_ROW2: KeyRow := "QWERTYUIOP{}"
  const SHIFT_ROW3: KeyRow := "ASDFGHJKL:\"~"
  const SHIFT_ROW4: KeyRow := "|ZXCVBNM<>?"

  /** The character of `code` when the key of the row's first character is `first`. */
  function InRow(row: KeyRow, first: Byte, code: Byte): (b: Byte)
    requires first <= code
    ensures b == NUL || '!' as int <= b <= '~' as int
  {
    if code - first < |row| then Ascii(row[code - first]) else NUL
  }

  /** The two scancode tables; neither holds a carriage return. */
  function Lookup(shifted: bool, key: Key): (b: Byte)
    ensures key.code < 0x80 ==> b == NUL || b == BS || b == NL || SPACE <= b < 0x7F
  {
    var k := key.code;
    if k >= 0x80 then key.stray
    else if 2 <= k <= 13 then InRow(if shifted then SHIFT_ROW1 else ROW1, 2, k)
    else if k == 14 then BS
    else if 16 <= k <= 27 then InRow(if shifted then SHIFT_ROW2 else ROW2, 16, k)
    else if k == 28 then NL
    else if 30 <= k <= 41 then InRow(if shifted then SHIFT_ROW3 else ROW3, 30, k)
    else if 43 <= k <= 53 then InRow(if shifted then SHIFT_ROW4 else ROW4, 43, k)
    else if k == 55 then Ascii('*')
    else if k == 57 then SPACE
    else if k == 74 then Ascii('-')
    else if k == 78 then Ascii('+')
    else NUL
  }

  // The scancodes of the printable characters on a US keyboard, in ASCII order.
  const CODES2: seq<Byte> := [57, 2, 40, 4, 5, 6, 8, 40, 10, 11, 9, 13, 51, 12, 52, 53]
  const CODES3: seq<Byte> := [11, 2, 3, 4, 5, 6, 7, 8, 9, 10, 39, 39, 51, 13, 52, 53]
  const CODES4: seq<Byte> := [3, 30, 48, 46, 32, 18, 33, 34, 35, 23, 36, 37, 38, 50, 49, 24]
  const CODES5: seq<Byte> := [25, 16, 19, 31, 20, 22, 47, 17, 45, 21, 44, 26, 43, 27, 7, 12]
  const CODES6: seq<Byte> := [41, 30, 48, 46, 32, 18, 33, 34, 35, 23, 36, 37, 38, 50, 49, 24]
  const CODES7: seq<Byte> := [25, 16, 19, 31, 20, 22, 47, 17, 45, 21, 44, 26, 43, 27, 41]

  function ScanCode(c: Byte): Byte
    requires SPACE <= c < 0x7F
  {
    if c < 48 then CODES2[c - 32]
    else if c < 64 then CODES3[c - 48]
    else if c < 80 then CODES4[c - 64]
    else if c < 96 then CODES5[c - 80]
    else if c < 112 then CODES6[c - 96]
    else CODES7[c - 112]
  }

  /** The capitals and the symbols above another one: the other half of the keys. */
  predicate NeedsShift(c: Byte) {
    || Ascii('A') <= c <= Ascii('Z')
    || c == Ascii('!') || c == Ascii('"') || Ascii('#') <= c <= Ascii('&') || Ascii('(') <= c <= Ascii('+')
    || c == Ascii(':') || c == Ascii('<') || Ascii('>') <= c <= Ascii('@')
    || c == Ascii('^') || c == Ascii('_') || Ascii('{') <= c <= Ascii('~')
  }

  predicate HasKey(c: Byte)
    requires SPACE <= c < 0x7F
  {
    Lookup(NeedsShift(c), Key(ScanCode(c), 0)) == c
  }

  lemma SymbolKeys(c: Byte)
    requires SPACE <= c < 40
    ensures HasKey(c)
  {
  }

  lemma MoreSymbolKeys(c: Byte)
    requires 40 <= c < 48
    ensures HasKey(c)
  {
  }

  lemma DigitKeys(c: Byte)
    requires 48 <= c < 56
    ensures HasKey(c)
  {
  }

  lemma MoreDigitKeys(c: Byte)
    requires 56 <= c < 64
    ensures HasKey(c)
  {
  }

  lemma CapitalKeys(c: Byte)
    requires 64 <= c < 80
    ensures HasKey(c)
  {
  }

  lemma MoreCapitalKeys(c: Byte)
    requires 80 <= c < 96
    ensures HasKey(c)
  {
  }

  lemma LetterKeys(c: Byte)
    requires 96 <= c < 112
    ensures HasKey(c)
  {
  }

  lemma MoreLetterKeys(c: Byte)
    requires 112 <= c < 0x7F
    ensures HasKey(c)
  {
  }

  /** The key of every printable character types it, with or without Shift as the character needs. */
  lemma TypesEverything(c: Byte, stray: Byte)
    requires SPACE <= c < 0x7F
    ensures Lookup(NeedsShift(c), Key(ScanCode(c), stray)) == c
    ensures ScanCode(c) < 0x80
  {
    if c < 48 {
      if c < 40 { SymbolKeys(c); } else { MoreSymbolKeys(c); }
    } else if c < 64 {
      if c < 56 { DigitKeys(c); } else { MoreDigitKeys(c); }
    } else if c < 96 {
      if c < 80 { CapitalKeys(c); } else { MoreCapitalKeys(c); }
    } else {
      if c < 112 { LetterKeys(c); } else { MoreLetterKeys(c); }
    }
    assert Lookup(NeedsShift(c), Key(ScanCode(c), 0)) == Lookup(NeedsShift(c), Key(ScanCode(c), stray));
  }

  /** The other keys: Backspace, Enter, space with Shift, the keypad, and those that type nothing. */
  lemma OtherKeys(shifted: bool, key: Key)
    requires key.code < 0x80
    ensures key.code == 14 <==> Lookup(shifted, key) == BS
    ensures key.code == 28 <==> Lookup(shifted, key) == NL
    ensures key.code == 55 ==> Lookup(shifted, key) == Ascii('*')
    ensures key.code == 57 ==> Lookup(shifted, key) == SPACE
    ensures key.code == 74 ==> Lookup(shifted, key) == Ascii('-')
    ensures key.code == 78 ==> Lookup(shifted, key) == Ascii('+')
    ensures key.code in [0, 1, 15, 29, 42, 54, 56] || (key.code > 57 && key.code != 74 && key.code != 78) ==>
      Lookup(shifted, key) == NUL
  {
  }

  // ---------------------------------------------------------------- the editor on values

  /** The line typed so far, the modifier keys, and whether a read is running or has seen Enter. */
  datatype Editor = Editor(line: seq<Byte>, shift: bool, caps: bool, ctrl: bool, reading: bool, entered: bool)

  /** The editor together with the console it echoes to. */
  datatype Session = Session(ed: Editor, view: Console.View)

  datatype Effect =
    | Nothing | Ctrl(on: bool) | Shift(on: bool) | Caps
    | Window(op: Console.Op)
    | ClearLine | Rubout | Enter | Type(c: Byte)

  /** No key scrolls far, erases past the line, overfills it or types a control character. */
  predicate Possible(ed: Editor, e: Effect) {
    match e
    case Nothing => true
    case Window(op) => ed.reading && (op.Font? || op.Background? || (op.Move? && -12 <= op.offset <= 12))
    case Rubout => ed.reading && ed.line != []
    case Type(c) => ed.reading && |ed.line| < LINE_LIMIT && SPACE <= c < 0x7F
    case _ => ed.reading
  }

  /** The keys with a meaning of their own; `Nothing` for the others. */
  function DecodeCommand(code: Byte): Effect {
    match code
    case 0x1D => Ctrl(true)
    case 0x9D => Ctrl(false)
    case 0x48 => Window(Console.Move(-1))
    case 0x50 => Window(Console.Move(1))
    case 0x49 => Window(Console.Move(-12))
    case 0x51 => Window(Console.Move(12))
    case 0x3A => Caps
    case 0x2A => Shift(true)
    case 0xAA => Shift(false)
    case 0x36 => Shift(true)
    case 0xB6 => Shift(false)
    case 0x41 => Window(Console.Font)
    case 0x42 => Window(Console.Background)
    case _ => Nothing
  }

  /** The keys that type a byte. */
  function DecodeByte(ed: Editor, b: Byte): Effect {
    if b == NUL then Nothing
    else if b == BS then if ed.line == [] then Nothing else Rubout
    else if b == NL then Enter
    else if |ed.line| >= LINE_LIMIT then Nothing
    else Type(b)
  }

  /** What a key means in a given editor state. */
  function Decode(ed: Editor, key: Key): (e: Effect)
    ensures Possible(ed, e)
  {
    if !ed.reading then Nothing
    else if DecodeCommand(key.code) != Nothing then DecodeCommand(key.code)
    else
      var b := Lookup(ed.shift || ed.caps, key);
      if ed.ctrl then if b == Ascii('l') then ClearLine else Nothing
      else if key.code >= 0x80 then Nothing
      else DecodeByte(ed, b)
  }

  function Edit(ed: Editor, e: Effect): Editor
    requires e.Rubout? ==> ed.line != []
  {
    match e
    case Ctrl(on) => ed.(ctrl := on)
    case Shift(on) => ed.(shift := on)
    case Caps => ed.(caps := !ed.caps)
    case ClearLine => ed.(line := [])
    case Rubout => ed.(line := ed.line[..|ed.line| - 1])
    case Enter => ed.(reading := false, entered := true)
    case Type(c) => ed.(line := ed.line + [c])
    case _ => ed
  }

  /** The console operations that echo a key: none, or one. */
  function Echo(e: Effect): (ops: seq<Console.Op>)
    ensures |ops| <= 1
  {
    match e
    case Window(op) => [op]
    case ClearLine => [Console.ClearAll]
    case Rubout => [Console.Char(BS)]
    case Enter => [Console.Char(NL)]
    case Type(c) => [Console.Char(c)]
    case _ => []
  }

  /**
   * While a read is running, the last cells before the cursor are exactly the line being typed.
   * The line never holds a control character and never exceeds its limit.
   */
  ghost predicate Shown(s: Session) {
    && |s.ed.line| <= LINE_LIMIT
    && Console.Printable(s.ed.line)
    && s.view.top <= Console.Row(s.view)
    && (s.ed.reading ==> |s.ed.line| <= |s.view.text| && s.view.text[LineStart(s)..] == s.ed.line)
  }

  function LineStart(s: Session): int {
    |s.view.text| - |s.ed.line|
  }

  /** Each key advances the cursor by at most one row, so this many keys fit. */
  predicate Room(s: Session, keys: nat) {
    Console.Row(s.view) + keys <= Console.MAX_ROW
  }

  /** There is room for the echo of a key. */
  lemma EchoFits(s: Session, e: Effect)
    requires Shown(s) && Room(s, 1) && Possible(s.ed, e)
    ensures Echo(e) != [] ==> Console.Allowed(s.view, Echo(e)[0])
  {
    match e
    case Rubout => Console.PutRow(s.view, BS);
    case Enter => Console.PutRow(s.view, NL);
    case Type(c) => Console.PutRow(s.view, c);
    case _ =>
  }

  function After(s: Session, e: Effect): Session
    requires Shown(s) && Room(s, 1) && Possible(s.ed, e)
  {
    EchoFits(s, e);
    Session(Edit(s.ed, e), if Echo(e) == [] then s.view else Console.Apply(s.view, Echo(e)[0]))
  }

  /** From `s` to `t` the cells before the line stay, and the cursor moves down by at most one row. */
  ghost predicate Kept(s: Session, t: Session) {
    && Shown(t)
    && Console.Row(t.view) <= Console.Row(s.view) + 1
    && LineStart(s) <= LineStart(t)
    && (0 <= LineStart(s) ==> s.view.text[..LineStart(s)] <= t.view.text)
  }

  lemma RuboutKeeps(s: Session)
    requires Shown(s) && Room(s, 1) && Possible(s.ed, Rubout)
    ensures Kept(s, After(s, Rubout))
  {
  }

  lemma TypeKeeps(s: Session, c: Byte)
    requires Shown(s) && Room(s, 1) && Possible(s.ed, Type(c))
    ensures Kept(s, After(s, Type(c)))
  {
  }

  lemma NewRowKeeps(s: Session, e: Effect)
    requires Shown(s) && Room(s, 1) && Possible(s.ed, e) && (e == Enter || e == ClearLine)
    ensures Kept(s, After(s, e))
  {
  }

  lemma WindowKeeps(s: Session, op: Console.Op)
    requires Shown(s) && Room(s, 1) && Possible(s.ed, Window(op))
    ensures Kept(s, After(s, Window(op)))
  {
  }

  /** One key keeps the line and its echo together, and leaves the cells before the line alone. */
  lemma EffectKeepsShown(s: Session, e: Effect)
    requires Shown(s) && Room(s, 1) && Possible(s.ed, e)
    ensures Kept(s, After(s, e))
  {
    match e
    case Rubout => RuboutKeeps(s);
    case Type(c) => TypeKeeps(s, c);
    case Window(op) => WindowKeeps(s, op);
    case Enter => NewRowKeeps(s, e);
    case ClearLine => NewRowKeeps(s, e);
    case _ =>
  }

  function Press(s: Session, key: Key): (t: Session)
    requires Shown(s) && Room(s, 1)
    ensures Shown(t) && Console.Row(t.view) <= Console.Row(s.view) + 1
    ensures (s.ed.reading <==> !s.ed.entered) ==> (t.ed.reading <==> !t.ed.entered)
  {
    EffectKeepsShown(s, Decode(s.ed, key));
    After(s, Decode(s.ed, key))
  }

  /** Every run of keys keeps the line and its echo together, and a read runs exactly until Enter. */
  function PressAll(s: Session, keys: seq<Key>): (t: Session)
    requires Shown(s) && Room(s, |keys|)
    ensures Shown(t) && Console.Row(t.view) <= Console.Row(s.view) + |keys|
    ensures (s.ed.reading <==> !s.ed.entered) ==> (t.ed.reading <==> !t.ed.entered)
    decreases |keys|
  {
    if keys == [] then s else PressAll(Press(s, keys[0]), keys[1..])
  }

  /** Keys never change a cell before the start of the line they edit. */
  lemma {:induction false} KeysKeepHistory(s: Session, keys: seq<Key>)
    requires Shown(s) && Room(s, |keys|) && 0 <= LineStart(s)
    ensures s.view.text[..LineStart(s)] <= PressAll(s, keys).view.text
    decreases |keys|
  {
    if keys != [] {
      var t := Press(s, keys[0]);
      EffectKeepsShown(s, Decode(s.ed, keys[0]));
      KeysKeepHistory(t, keys[1..]);
    }
  }

  lemma {:induction false} PressLast(s: Session, keys: seq<Key>, k: Key)
    requires Shown(s) && Room(s, |keys| + 1)
    ensures PressAll(s, keys + [k]) == Press(PressAll(s, keys), k)
    decreases |keys|
  {
    if keys != [] {
      assert (keys + [k])[1..] == keys[1..] + [k];
      PressLast(Press(s, keys[0]), keys[1..], k);
    }
  }

  lemma PressNext(s: Session, keys: seq<Key>, n: nat)
    requires Shown(s) && Room(s, |keys|) && n < |keys|
    ensures PressAll(s, keys[..n + 1]) == Press(PressAll(s, keys[..n]), keys[n])
  {
    assert keys[..n + 1] == keys[..n] + [keys[n]];
    PressLast(s, keys[..n], keys[n]);
  }

  /** Enter has not been seen before the last of the first `n` keys. */
  ghost predicate StillWaiting(s: Session, keys: seq<Key>, n: nat)
    requires Shown(s) && Room(s, |keys|) && n <= |keys|
  {
    forall i :: 0 <= i < n ==> !PressAll(s, keys[..i]).ed.entered
  }

  /** The session after one more key, while Enter has not been seen. */
  lemma WaitOneMore(s: Session, keys: seq<Key>, n: nat, now: Session)
    requires Shown(s) && Room(s, |keys|) && n < |keys|
    requires StillWaiting(s, keys, n) && now == PressAll(s, keys[..n]) && !now.ed.entered
    ensures Room(now, 1) && Shown(now)
    ensures StillWaiting(s, keys, n + 1) && PressAll(s, keys[..n + 1]) == Press(now, keys[n])
  {
    PressNext(s, keys, n);
  }

  /** A key that types a printable character when Ctrl is not held. */
  predicate Typing(ed: Editor, key: Key) {
    key.code < 0x80 && DecodeCommand(key.code) == Nothing && Lookup(ed.shift || ed.caps, key) >= SPACE
  }

  function Typed(ed: Editor, keys: seq<Key>): (chars: seq<Byte>)
    ensures |chars| == |keys|
  {
    seq(|keys|, i requires 0 <= i < |keys| => Lookup(ed.shift || ed.caps, keys[i]))
  }

  function Capped(line: seq<Byte>): seq<Byte> {
    if |line| <= LINE_LIMIT then line else line[..LINE_LIMIT]
  }

  lemma TypeOne(s: Session, key: Key)
    requires Shown(s) && Room(s, 1) && s.ed.reading && !s.ed.ctrl && Typing(s.ed, key)
    ensures var c := Lookup(s.ed.shift || s.ed.caps, key);
      if |s.ed.line| < LINE_LIMIT
      then Press(s, key).ed == s.ed.(line := s.ed.line + [c]) && Press(s, key).view.text == s.view.text + [c]
      else Press(s, key) == s
  {
  }

  lemma CappedStep(line: seq<Byte>, c: Byte, rest: seq<Byte>)
    requires |line| <= LINE_LIMIT
    ensures |line| < LINE_LIMIT ==> Capped((line + [c]) + rest) == Capped(line + ([c] + rest))
    ensures |line| == LINE_LIMIT ==> Capped(line + rest) == Capped(line + ([c] + rest)) == line
  {
  }

  lemma TypedNext(ed: Editor, next: Editor, keys: seq<Key>)
    requires keys != [] && (ed.shift || ed.caps) == (next.shift || next.caps)
    ensures Typed(ed, keys) == [Lookup(ed.shift || ed.caps, keys[0])] + Typed(next, keys[1..])
  {
  }

  /** Typing adds the characters to the line and to the screen, up to the limit; the rest are dropped. */
  lemma {:induction false} TypingIsCapped(s: Session, keys: seq<Key>)
    requires Shown(s) && Room(s, |keys|) && s.ed.reading && !s.ed.ctrl
    requires forall i :: 0 <= i < |keys| ==> Typing(s.ed, keys[i])
    ensures PressAll(s, keys).ed == s.ed.(line := Capped(s.ed.line + Typed(s.ed, keys)))
    decreases |keys|
  {
    if keys == [] {
      assert s.ed.line + [] == s.ed.line;
    } else {
      TypeOne(s, keys[0]);
      var t := Press(s, keys[0]);
      TypedNext(s.ed, t.ed, keys);
      CappedStep(s.ed.line, Lookup(s.ed.shift || s.ed.caps, keys[0]), Typed(t.ed, keys[1..]));
      TypingIsCapped(t, keys[1..]);
    }
  }

  lemma RuboutOne(s: Session, key: Key)
    requires Shown(s) && Room(s, 1) && s.ed.reading && !s.ed.ctrl && s.ed.line != [] && key.code == 14
    ensures var t := Press(s, key);
      && t.ed == s.ed.(line := s.ed.line[..|s.ed.line| - 1])
      && t.view.text == s.view.text[..|s.view.text| - 1]
  {
  }

  /** Backspace takes back a typed character, on the line and on the screen. */
  lemma BackspaceUndoesTyping(s: Session, key: Key, backspace: Key)
    requires Shown(s) && Room(s, 2) && s.ed.reading && !s.ed.ctrl && Typing(s.ed, key)
    requires |s.ed.line| < LINE_LIMIT && backspace.code == 14
    ensures var t := Press(Press(s, key), backspace); t.ed == s.ed && t.view.text == s.view.text
  {
    TypeOne(s, key);
    RuboutOne(Press(s, key), backspace);
  }

  // ---------------------------------------------------------------- what the keys do

  /** Enter ends a read, with the line as it is, and moves to the next row. */
  lemma EnterEndsRead(s: Session, stray: Byte)
    requires Shown(s) && Room(s, 1) && s.ed.reading && !s.ed.ctrl
    ensures var t := Press(s, Key(28, stray));
      && t.ed == s.ed.(reading := false, entered := true)
      && t.view.text == Console.NextRow(s.view.text)
  {
  }

  lemma NoCommand(shifted: bool, key: Key)
    requires key.code < 0x80 && Lookup(shifted, key) >= SPACE
    ensures DecodeCommand(key.code) == Nothing
  {
  }

  /** With Shift, or Caps Lock, or both, a key types its upper character, and otherwise its lower one. */
  lemma KeyTypes(s: Session, c: Byte, stray: Byte)
    requires Shown(s) && Room(s, 1) && s.ed.reading && !s.ed.ctrl && |s.ed.line| < 10
    requires SPACE <= c < 0x7F && (s.ed.shift || s.ed.caps <==> NeedsShift(c))
    ensures var t := Press(s, Key(ScanCode(c), stray));
      t.ed == s.ed.(line := s.ed.line + [c]) && t.view.text == s.view.text + [c]
  {
    TypesEverything(c, stray);
    NoCommand(NeedsShift(c), Key(ScanCode(c), stray));
    TypeOne(s, Key(ScanCode(c), stray));
  }

  /** Shift is on from a press of either of its keys to its release, 0x80 above it. */
  lemma ShiftKeys(s: Session, stray: Byte)
    requires Shown(s) && Room(s, 1) && s.ed.reading
    ensures Press(s, Key(0x2A, stray)) == Press(s, Key(0x36, stray)) == s.(ed := s.ed.(shift := true))
    ensures Press(s, Key(0xAA, stray)) == Press(s, Key(0xB6, stray)) == s.(ed := s.ed.(shift := false))
  {
  }

  /** Ctrl is on from its press to its release; each press of Caps Lock turns it over. */
  lemma CtrlAndCapsKeys(s: Session, stray: Byte)
    requires Shown(s) && Room(s, 1) && s.ed.reading
    ensures Press(s, Key(0x1D, stray)) == s.(ed := s.ed.(ctrl := true))
    ensures Press(s, Key(0x9D, stray)) == s.(ed := s.ed.(ctrl := false))
    ensures Press(s, Key(0x3A, stray)) == s.(ed := s.ed.(caps := !s.ed.caps))
  {
  }

  lemma LineKey(s: Session, key: Key)
    requires Shown(s) && Room(s, 1) && s.ed.reading && (key.code == 0x48 || key.code == 0x50)
    ensures Press(s, key) == s.(view := Console.Scroll(s.view, if key.code == 0x48 then -1 else 1))
  {
  }

  /** The keys of the window leave the line alone. */
  lemma WindowKeys(s: Session, stray: Byte)
    requires Shown(s) && Room(s, 1) && s.ed.reading
    ensures Press(s, Key(0x48, stray)) == s.(view := Console.Scroll(s.view, -1))
    ensures Press(s, Key(0x50, stray)) == s.(view := Console.Scroll(s.view, 1))
    ensures Press(s, Key(0x49, stray)) == s.(view := Console.Scroll(s.view, -12))
    ensures Press(s, Key(0x51, stray)) == s.(view := Console.Scroll(s.view, 12))
    ensures Press(s, Key(0x41, stray)) == s.(view := s.view.(attr := Console.NextFont(s.view.attr)))
    ensures Press(s, Key(0x42, stray)) == s.(view := s.view.(attr := Console.NextBackground(s.view.attr)))
  {
  }

  /** Ctrl-L empties the line and the window; with Ctrl every other character is dropped. */
  lemma CtrlKeys(s: Session, key: Key)
    requires Shown(s) && Room(s, 1) && s.ed.reading && s.ed.ctrl && DecodeCommand(key.code) == Nothing
    ensures var t, c := Press(s, key), Lookup(s.ed.shift || s.ed.caps, key);
      if c == Ascii('l') then t.ed == s.ed.(line := []) && t.view == Console.Clear(s.view) else t == s
  {
  }

  /** A key does nothing outside a read, and neither does letting go of one without a meaning of its own. */
  lemma IdleKeys(s: Session, key: Key)
    requires Shown(s) && Room(s, 1)
    requires !s.ed.reading || (key.code >= 0x80 && !s.ed.ctrl && key.code !in [0x9D, 0xAA, 0xB6])
    ensures Press(s, key) == s
  {
  }

  function Repeated(key: Key, n: nat): (keys: seq<Key>)
    ensures |keys| == n
  {
    seq(n, _ => key)
  }

  lemma {:induction false} LinesScroll(s: Session, key: Key, n: nat)
    requires Shown(s) && Room(s, n) && s.ed.reading && (key.code == 0x48 || key.code == 0x50)
    ensures PressAll(s, Repeated(key, n)) == s.(view := Console.Scroll(s.view, if key.code == 0x48 then 0 - n else n))
    decreases n
  {
    var way := if key.code == 0x48 then -1 else 1;
    if n > 0 {
      assert Repeated(key, n)[1..] == Repeated(key, n - 1);
      LineKey(s, key);
      LinesScroll(Press(s, key), key, n - 1);
      Console.ScrollsAddUp(s.view, way, way * (n - 1));
    }
  }

  /** A page is twelve lines, upwards and downwards, also at the ends of the text. */
  lemma PageIsTwelveLines(s: Session, stray: Byte)
    requires Shown(s) && Room(s, 12) && s.ed.reading
    ensures Press(s, Key(0x49, stray)) == PressAll(s, Repeated(Key(0x48, stray), 12))
    ensures Press(s, Key(0x51, stray)) == PressAll(s, Repeated(Key(0x50, stray), 12))
  {
    WindowKeys(s, stray);
    LinesScroll(s, Key(0x48, stray), 12);
    LinesScroll(s, Key(0x50, stray), 12);
  }

  // ---------------------------------------------------------------- whole lines

  /** One character on a line of at most ten. */
  function EditOne(line: seq<Byte>, c: Byte): seq<Byte> {
    if c == BS then if line == [] then [] else line[..|line| - 1]
    else if |line| < 10 then line + [c] else line
  }

  /** What characters and backspaces make of a line. */
  function Edited(line: seq<Byte>, chars: seq<Byte>): seq<Byte>
    decreases |chars|
  {
    if chars == [] then line else Edited(EditOne(line, chars[0]), chars[1..])
  }

  /** A key that types a printable character, or Backspace. */
  predicate Editing(ed: Editor, key: Key) {
    Typing(ed, key) || key.code == 14
  }

  /** Such keys, and Enter at the end. */
  predicate TypesLine(ed: Editor, keys: seq<Key>) {
    && keys != [] && keys[|keys| - 1].code == 28
    && forall i :: 0 <= i < |keys| - 1 ==> Editing(ed, keys[i])
  }

  lemma EditOneKey(s: Session, key: Key)
    requires Shown(s) && Room(s, 1) && s.ed.reading && !s.ed.ctrl && Editing(s.ed, key)
    ensures Press(s, key).ed == s.ed.(line := EditOne(s.ed.line, Lookup(s.ed.shift || s.ed.caps, key)))
  {
    if key.code == 14 {
      if s.ed.line != [] {
        RuboutOne(s, key);
      }
    } else {
      TypeOne(s, key);
    }
  }

  lemma {:induction false} EditsLine(s: Session, keys: seq<Key>)
    requires Shown(s) && Room(s, |keys|) && s.ed.reading && !s.ed.ctrl
    requires forall i :: 0 <= i < |keys| ==> Editing(s.ed, keys[i])
    ensures PressAll(s, keys).ed == s.ed.(line := Edited(s.ed.line, Typed(s.ed, keys)))
    decreases |keys|
  {
    if keys != [] {
      EditOneKey(s, keys[0]);
      TypedNext(s.ed, Press(s, keys[0]).ed, keys);
      EditsLine(Press(s, keys[0]), keys[1..]);
    }
  }

  /** A line typed during a read, with corrections, is the line read, and the read goes on until its Enter. */
  lemma ReadsLine(s: Session, keys: seq<Key>)
    requires Shown(s) && Room(s, |keys|) && s.ed.reading && !s.ed.entered && !s.ed.ctrl && TypesLine(s.ed, keys)
    ensures PressAll(s, keys).ed ==
      s.ed.(line := Edited(s.ed.line, Typed(s.ed, keys[..|keys| - 1])), reading := false, entered := true)
    ensures forall n :: 0 <= n < |keys| ==> !PressAll(s, keys[..n]).ed.entered
  {
    var n := |keys| - 1;
    forall i | 0 <= i < |keys| ensures !PressAll(s, keys[..i]).ed.entered {
      EditsLine(s, keys[..i]);
    }
    EditsLine(s, keys[..n]);
    PressNext(s, keys, n);
    assert keys[..n + 1] == keys;
    EnterEndsRead(PressAll(s, keys[..n]), keys[n].stray);
  }

  /** So a wait that has seen Enter, or used all keys, has used them all, and has that line. */
  lemma LineIsRead(s: Session, keys: seq<Key>, line: seq<Byte>)
    requires Shown(s) && Room(s, |keys|) && s.ed.reading && !s.ed.entered && !s.ed.ctrl && TypesLine(s.ed, keys)
    requires line == Edited(s.ed.line, Typed(s.ed, keys[..|keys| - 1]))
    ensures forall n {:trigger keys[..n]} :: 0 <= n <= |keys| ==>
      var t := PressAll(s, keys[..n]).ed;
      (t.entered <==> n == |keys|) && (n == |keys| ==> t.line == line)
  {
    ReadsLine(s, keys);
    assert keys[..|keys|] == keys;
  }

  /** A read that has just begun: nothing typed, and Enter not yet seen. */
  function ReadStart(s: Session): Session {
    s.(ed := s.ed.(line := [], reading := true, entered := false))
  }

  // ---------------------------------------------------------------- the code

  class Keyboard {
    const screen: Console.Screen
    const typed: array<Byte>
    var linePos: int
    var enterPressed: bool
    var shift: bool
    var capsLock: bool
    var ctrl: bool
    var reading: bool

    ghost predicate Valid()
      reads this, typed, screen, screen.video, screen.saved
    {
      && typed.Length == 1024 && typed as object != screen.video && typed as object != screen.saved
      && screen.Valid()
      && 0 <= linePos <= LINE_LIMIT
      && Shown(Current())
    }

    ghost function Current(): Session
      requires 0 <= linePos <= typed.Length
      reads this, typed, screen
    {
      Session(Editor(typed[..linePos], shift, capsLock, ctrl, reading, enterPressed), screen.Current())
    }

    /** Once Enter has ended a read, the line is closed by its first newline. */
    ghost predicate Closed()
      requires 0 <= linePos < typed.Length
      reads this, typed
    {
      enterPressed && !reading ==> typed[linePos] == NL
    }

    constructor (s: Console.Screen, buffer: array<Byte>)
      requires buffer.Length == 1024
      ensures screen == s && typed == buffer
    {
      screen, typed := s, buffer;
      linePos, enterPressed, shift, capsLock, ctrl, reading := 0, false, false, false, false, false;
    }

    /** `terminal_open`; like `ScreenInit` it is right exactly when the hardware cursor was on. */
    method TerminalOpen()
      requires screen.Sized()
      requires typed.Length == 1024 && typed as object != screen.video && typed as object != screen.saved
      modifies this, screen, screen.video, screen.saved
      ensures Valid() <==> old(screen.cursorStart) & 0x20 == 0
      ensures !reading && linePos == 0
      ensures Current().view == Console.View([], 0, 0x2)
      ensures !shift && !capsLock && !ctrl
    {
      screen.ScreenInit();
      linePos := 0;
      shift, capsLock, ctrl := false, false, false;
      reading := false;
    }

    /** The keys that only move or recolour the window. */
    method WindowKey(op: Console.Op)
      requires Valid() && Room(Current(), 1) && Possible(Current().ed, Window(op))
      modifies screen, screen.video, screen.saved
      ensures Valid() && Current() == After(old(Current()), Window(op))
    {
      EffectKeepsShown(Current(), Window(op));
      screen.Perform(op);
    }

    /** The cases of the `switch` that set a modifier. */
    method ModifierKey(code: Byte) returns (handled: bool)
      requires Valid() && reading
      modifies `ctrl, `shift, `capsLock
      ensures handled ==> Current().ed == Edit(old(Current()).ed, DecodeCommand(code)) && !DecodeCommand(code).Window?
      ensures !handled ==> DecodeCommand(code) == Nothing || DecodeCommand(code).Window?
      ensures handled ==> DecodeCommand(code) != Nothing
      ensures !handled ==> Current() == old(Current())
      ensures Valid()
    {
      handled := true;
      match code {
        case 0x1D => ctrl := true;
        case 0x9D => ctrl := false;
        case 0x3A => capsLock := !capsLock;
        case 0x2A => shift := true;
        case 0xAA => shift := false;
        case 0x36 => shift := true;
        case 0xB6 => shift := false;
        case _ => handled := false;
      }
    }

    /** The `switch` of `keyboard_input`. */
    method CommandKey(code: Byte) returns (handled: bool)
      requires Valid() && Room(Current(), 1) && reading
      modifies this, screen, screen.video, screen.saved
      ensures handled == (DecodeCommand(code) != Nothing)
      ensures Valid() && Current() == After(old(Current()), DecodeCommand(code))
    {
      handled := ModifierKey(code);
      if handled {
        return;
      }
      handled := true;
      match code {
        case 0x48 => WindowKey(Console.Move(-1));
        case 0x50 => WindowKey(Console.Move(1));
        case 0x49 => WindowKey(Console.Move(-12));
        case 0x51 => WindowKey(Console.Move(12));
        case 0x41 => WindowKey(Console.Font);
        case 0x42 => WindowKey(Console.Background);
        case _ => handled := false;
      }
    }

    method RuboutKey()
      requires Valid() && Room(Current(), 1) && reading && linePos > 0
      modifies `linePos, screen, screen.video, screen.saved
      ensures Valid() && Current() == After(old(Current()), Rubout)
    {
      RuboutKeeps(Current());
      linePos := linePos - 1;
      screen.Putc(BS);
      assert typed[..linePos] == old(typed[..linePos])[..linePos];
    }

    method EnterKey()
      requires Valid() && Room(Current(), 1) && reading
      modifies `reading, `enterPressed, typed, screen, screen.video, screen.saved
      ensures Valid() && Current() == After(old(Current()), Enter)
      ensures typed[linePos] == NL
    {
      NewRowKeeps(Current(), Enter);
      reading := false;
      typed[linePos] := NL;
      enterPressed := true;
      screen.Putc(NL);
      assert typed[..linePos] == old(typed[..linePos]);
    }

    method TypeKey(data: Byte)
      requires Valid() && Room(Current(), 1) && reading && linePos < LINE_LIMIT && SPACE <= data < 0x7F
      modifies `linePos, typed, screen, screen.video, screen.saved
      ensures Valid() && Current() == After(old(Current()), Type(data))
    {
      TypeKeeps(Current(), data);
      typed[linePos] := data;
      linePos := linePos + 1;
      screen.Putc(data);
      assert typed[..linePos] == old(typed[..linePos]) + [data];
    }

    /** The end of `keyboard_input`: a byte that edits the line and is echoed. */
    method ByteKey(data: Byte)
      requires Valid() && Room(Current(), 1) && reading
      requires data == NUL || data == BS || data == NL || SPACE <= data < 0x7F
      modifies this, typed, screen, screen.video, screen.saved
      ensures Valid() && Current() == After(old(Current()), DecodeByte(old(Current()).ed, data))
      ensures !reading ==> typed[linePos] == NL
    {
      if data != NUL {
        if data == BS {
          if linePos == 0 {
            return;
          }
          RuboutKey();
        } else if data == NL {
          EnterKey();
        } else {
          if linePos >= LINE_LIMIT {
            return;
          }
          TypeKey(data);
        }
      }
    }

    /** Control with a byte of the tables. */
    method CtrlKey(data: Byte)
      requires Valid() && Room(Current(), 1) && reading
      modifies this, screen, screen.video, screen.saved
      ensures Valid()
      ensures Current() == After(old(Current()), if data == Ascii('l') then ClearLine else Nothing)
    {
      EffectKeepsShown(Current(), ClearLine);
      if data == Ascii('l') {
        screen.ClearScreen();
        linePos := 0;
      }
    }

    method KeyboardInput(key: Key)
      requires Valid() && Room(Current(), 1)
      modifies this, typed, screen, screen.video, screen.saved
      ensures Valid() && Current() == Press(old(Current()), key)
      ensures old(Closed()) ==> Closed()
    {
      if !reading {
        return;
      }
      var handled := CommandKey(key.code);
      if handled {
        return;
      }
      var data := Lookup(shift || capsLock, key);
      if ctrl {
        CtrlKey(data);
        return;
      }
      if key.code >= 0x80 {
        return;
      }
      ByteKey(data);
    }

    /** The wait of `terminal_read`, given the keys that arrive: it uses them up to the first Enter. */
    method WaitForEnter(keys: seq<Key>) returns (used: nat)
      requires Valid() && Room(Current(), |keys|) && reading && !enterPressed
      modifies this, typed, screen, screen.video, screen.saved
      ensures Valid() && Closed() && used <= |keys|
      ensures Current() == PressAll(old(Current()), keys[..used])
      ensures StillWaiting(old(Current()), keys, used)
      ensures reading <==> !enterPressed
      ensures !enterPressed ==> used == |keys|
    {
      used := 0;
      ghost var start := Current();
      while !enterPressed && used < |keys|
        invariant used <= |keys| && Valid() && Closed()
        invariant Current() == PressAll(start, keys[..used])
        invariant StillWaiting(start, keys, used)
        invariant reading <==> !enterPressed
        decreases |keys| - used
      {
        WaitOneMore(start, keys, used, Current());
        KeyboardInput(keys[used]);
        used := used + 1;
      }
    }

    /** The copy loop of `terminal_read`: it stops at the newline that closes the line. */
    method CopyLine(buf: array<Byte>, cnt: int) returns (count: int)
      requires 0 <= linePos < typed.Length && typed[linePos] == NL && NL !in typed[..linePos]
      requires cnt <= buf.Length && buf != typed
      modifies buf
      ensures count == Console.Clamp(cnt, linePos) <= buf.Length
      ensures buf[..] == typed[..count] + old(buf[..])[count..]
    {
      count := 0;
      while typed[count] != NL && count < cnt
        invariant 0 <= count <= linePos && (0 < count ==> count <= cnt)
        invariant forall k :: 0 <= k < count ==> buf[k] == typed[k]
        invariant forall k :: count <= k < buf.Length ==> buf[k] == old(buf[k])
        decreases linePos - count
      {
        buf[count] := typed[count];
        count := count + 1;
      }
      assert count < linePos ==> typed[count] in typed[..linePos];
    }

    /** The end of `terminal_read`: hands over the line and leaves the session as it is. */
    method TakeLine(buf: array<Byte>, cnt: int) returns (count: int)
      requires Valid() && enterPressed && typed[linePos] == NL
      requires cnt <= buf.Length && buf != typed
      requires buf as object != screen.video && buf as object != screen.saved
      modifies buf
      ensures Valid() && Current() == old(Current())
      ensures count == Console.Clamp(cnt, |Current().ed.line|) <= buf.Length
      ensures buf[..] == Current().ed.line[..count] + old(buf[..])[count..]
    {
      assert NL !in Current().ed.line;
      count := CopyLine(buf, cnt);
    }

    /** The stores at the start of `terminal_read`, as one step. */
    method BeginRead()
      requires Valid()
      modifies `reading, `linePos, `enterPressed
      ensures Valid() && Current() == ReadStart(old(Current()))
    {
      reading := true;
      linePos := 0;
      enterPressed := false;
    }

    /** The steps of a read: the start, the wait, the copy. */
    method ReadSteps(keys: seq<Key>, buf: array<Byte>, cnt: int) returns (used: nat, count: int)
      requires Valid() && Room(Current(), |keys|)
      requires cnt <= buf.Length && buf != typed
      requires buf as object != screen.video && buf as object != screen.saved
      modifies this, typed, screen, screen.video, screen.saved, buf
      ensures Valid() && used <= |keys|
      ensures Current() == PressAll(ReadStart(old(Current())), keys[..used])
      ensures StillWaiting(ReadStart(old(Current())), keys, used)
      ensures !enterPressed ==> reading && used == |keys| && count == -1 && buf[..] == old(buf[..])
      ensures enterPressed ==> !reading && count == Console.Clamp(cnt, |Current().ed.line|) <= buf.Length
      ensures enterPressed ==> buf[..] == Current().ed.line[..count] + old(buf[..])[count..]
    {
      BeginRead();
      used := WaitForEnter(keys);
      count := -1;
      if enterPressed {
        count := TakeLine(buf, cnt);
      }
    }

    /**
     * One read, given the keys that arrive while it waits. If none of them is Enter it is still
     * waiting, and `count` is -1.
     */
    method TerminalRead(keys: seq<Key>, buf: array<Byte>, cnt: int) returns (used: nat, count: int)
      requires Valid() && Room(Current(), |keys|)
      requires cnt <= buf.Length && buf != typed
      requires buf as object != screen.video && buf as object != screen.saved
      modifies this, typed, screen, screen.video, screen.saved, buf
      ensures Valid() && used <= |keys|
      ensures Current() == PressAll(ReadStart(old(Current())), keys[..used])
      ensures StillWaiting(ReadStart(old(Current())), keys, used)
      ensures !enterPressed ==> reading && used == |keys| && count == -1 && buf[..] == old(buf[..])
      ensures enterPressed ==> !reading && count == Console.Clamp(cnt, |Current().ed.line|) <= buf.Length
      ensures enterPressed ==> buf[..] == Current().ed.line[..count] + old(buf[..])[count..]
      // A line typed and corrected without Ctrl, with Enter at its end, is what is read.
      ensures !old(ctrl) && TypesLine(old(Current()).ed, keys) ==>
        var line := Edited([], Typed(old(Current()).ed, keys[..|keys| - 1]));
        && used == |keys| && count == (if cnt < 0 then 0 else if cnt < |line| then cnt else |line|) <= buf.Length
        && buf[..] == line[..count] + old(buf[..])[count..]
    {
      ghost var start, line := ReadStart(Current()), Current().ed.line;
      if !ctrl && TypesLine(Current().ed, keys) {
        line := Edited([], Typed(Current().ed, keys[..|keys| - 1]));
        LineIsRead(start, keys, line);
      }
      used, count := ReadSteps(keys, buf, cnt);
    }
  }
}
