/**
 * `add_frames` of fish/fish.c: two text files read byte by byte, side by side, into blinks that
 * alternate between the two pictures.
 */
module Frames {
  import opened Bytes
  import opened Blink

  const OFFSET := 40
  const LENGTH: Word := 15

  type Picture = seq<seq<Byte>>

  /** A position of the pictures. */
  datatype Cell = Cell(row: nat, col: nat)

  predicate Before(a: Cell, b: Cell) {
    a.row < b.row || (a.row == b.row && a.col < b.col)
  }

  ghost predicate Ordered(cs: seq<Cell>) {
    forall j, k :: 0 <= j < k < |cs| ==> Before(cs[j], cs[k])
  }

  function LineAt(p: Picture, row: nat): seq<Byte> {
    if row < |p| then p[row] else []
  }

  /** The character at a position of a picture padded with spaces. */
  function At(p: Picture, c: Cell): Byte {
    var line := LineAt(p, c.row);
    if c.col < |line| then line[c.col] else SPACE
  }

  predicate NonBlank(p0: Picture, p1: Picture, c: Cell) {
    At(p0, c) != SPACE || At(p1, c) != SPACE
  }

  function Max(a: nat, b: nat): nat {
    if a < b then b else a
  }

  function Rows(p0: Picture, p1: Picture): nat {
    Max(|p0|, |p1|)
  }

  function Width(p0: Picture, p1: Picture, row: nat): nat {
    Max(|LineAt(p0, row)|, |LineAt(p1, row)|)
  }

  /** The non-blank positions from `(row, col)` on, row by row. */
  function CellsFrom(p0: Picture, p1: Picture, row: nat, col: nat): seq<Cell>
    decreases Rows(p0, p1) - row, Width(p0, p1, row) - col
  {
    if row >= Rows(p0, p1) then []
    else if col >= Width(p0, p1, row) then CellsFrom(p0, p1, row + 1, 0)
    else if NonBlank(p0, p1, Cell(row, col)) then [Cell(row, col)] + CellsFrom(p0, p1, row, col + 1)
    else CellsFrom(p0, p1, row, col + 1)
  }

  /** The location is an `unsigned short`. */
  function AddAt(p0: Picture, p1: Picture, c: Cell): Blink {
    Blink((c.row * 80 + c.col + OFFSET) % 0x1_0000, At(p0, c), At(p1, c), LENGTH, LENGTH, 0, 0)
  }

  function AddsAt(p0: Picture, p1: Picture, cells: seq<Cell>): (adds: seq<Blink>)
    ensures |adds| == |cells| && forall k :: 0 <= k < |cells| ==> adds[k] == AddAt(p0, p1, cells[k])
  {
    seq(|cells|, k requires 0 <= k < |cells| => AddAt(p0, p1, cells[k]))
  }

  /** What `add_frames` adds. */
  function FrameAdds(p0: Picture, p1: Picture): seq<Blink> {
    AddsAt(p0, p1, CellsFrom(p0, p1, 0, 0))
  }

  lemma BlankOutside(p0: Picture, p1: Picture, c: Cell)
    requires NonBlank(p0, p1, c)
    ensures c.row < Rows(p0, p1) && c.col < Width(p0, p1, c.row)
  {
  }

  lemma {:induction false} CellsListed(p0: Picture, p1: Picture, row: nat, col: nat, c: Cell)
    ensures c in CellsFrom(p0, p1, row, col) <==> NonBlank(p0, p1, c) && !Before(c, Cell(row, col))
    decreases Rows(p0, p1) - row, Width(p0, p1, row) - col
  {
    if NonBlank(p0, p1, c) {
      BlankOutside(p0, p1, c);
    }
    if row < Rows(p0, p1) {
      if col >= Width(p0, p1, row) {
        CellsListed(p0, p1, row + 1, 0, c);
      } else {
        var rest := CellsFrom(p0, p1, row, col + 1);
        CellsListed(p0, p1, row, col + 1, c);
        assert c in [Cell(row, col)] + rest <==> c == Cell(row, col) || c in rest;
      }
    }
  }

  lemma {:induction false} CellsOrdered(p0: Picture, p1: Picture, row: nat, col: nat)
    ensures Ordered(CellsFrom(p0, p1, row, col))
    decreases Rows(p0, p1) - row, Width(p0, p1, row) - col
  {
    if row < Rows(p0, p1) {
      if col >= Width(p0, p1, row) {
        CellsOrdered(p0, p1, row + 1, 0);
      } else {
        CellsOrdered(p0, p1, row, col + 1);
        var rest := CellsFrom(p0, p1, row, col + 1);
        forall k | 0 <= k < |rest| ensures Before(Cell(row, col), rest[k]) {
          assert rest[k] in rest;
          CellsListed(p0, p1, row, col + 1, rest[k]);
        }
        assert Ordered([Cell(row, col)] + rest);
      }
    }
  }

  /** There is exactly one add for each non-blank character of either picture, in reading order. */
  lemma AddsExactly(p0: Picture, p1: Picture)
    ensures var cs, adds := CellsFrom(p0, p1, 0, 0), FrameAdds(p0, p1);
      && |adds| == |cs| && (forall k :: 0 <= k < |cs| ==> adds[k] == AddAt(p0, p1, cs[k]))
      && Ordered(cs)
      && (forall c :: c in cs <==> NonBlank(p0, p1, c))
  {
    CellsOrdered(p0, p1, 0, 0);
    forall c ensures c in CellsFrom(p0, p1, 0, 0) <==> NonBlank(p0, p1, c) {
      CellsListed(p0, p1, 0, 0, c);
    }
  }

  // ---------------------------------------------------------------- the code

  /** A file being read: its position, the last byte (a newline once the row has ended) and the end mark. */
  datatype Reader = Reader(pos: nat, c: Byte, eof: bool)

  /** `r` has read `f` up to column `col` of row `row` of its picture `p`. */
  ghost predicate AtColumn(f: seq<Byte>, p: Picture, row: nat, col: nat, r: Reader) {
    && r.pos <= |f|
    && (r.c != NL ==>
          !r.eof && row < |p| && col <= |p[row]| && Lines(f[r.pos..]) == [p[row][col..]] + p[row + 1..])
    && (r.c == NL ==>
          && |LineAt(p, row)| <= col
          && (if r.eof then |p| <= row + 1 else row < |p| && Lines(f[r.pos..]) == p[row + 1..]))
  }

  /** Between rows: the row has not begun unless the file has ended. */
  ghost predicate AtRow(f: seq<Byte>, p: Picture, row: nat, r: Reader) {
    AtColumn(f, p, row, 0, r) && (r.eof <==> r.c == NL)
  }

  /** What is left to read of a file. */
  function Left(f: seq<Byte>, r: Reader): int {
    |f| - r.pos + if r.eof then 0 else 1
  }

  /** The next byte of a file whose current row has not ended. */
  lemma NextOfLine(f: seq<Byte>, p: Picture, row: nat, col: nat, pos: nat)
    requires pos < |f| && row < |p| && col <= |p[row]| && Lines(f[pos..]) == [p[row][col..]] + p[row + 1..]
    ensures f[pos] == NL ==> col == |p[row]| && Lines(f[pos + 1..]) == p[row + 1..]
    ensures f[pos] != NL ==>
      col < |p[row]| && f[pos] == p[row][col] && Lines(f[pos + 1..]) == [p[row][col + 1..]] + p[row + 1..]
  {
    var c, s, line, rest := f[pos], f[pos + 1..], p[row][col..], p[row + 1..];
    assert f[pos..] == [c] + s;
    LinesCons(c, s);
    assert ([line] + rest)[0] == line && ([line] + rest)[1..] == rest;
    if c == NL {
      assert ([[]] + Lines(s))[1..] == Lines(s);
    } else {
      assert line == [c] + Lines(s)[0] && rest == ([[c] + Lines(s)[0]] + Lines(s)[1..])[1..] == Lines(s)[1..];
      assert line[1..] == p[row][col + 1..] == Lines(s)[0];
      assert Lines(s) == [Lines(s)[0]] + Lines(s)[1..];
    }
  }

  /** One guarded `read` of `add_frames`. */
  method NextByte(f: seq<Byte>, ghost p: Picture, ghost row: nat, ghost col: nat, r: Reader) returns (r': Reader)
    requires AtColumn(f, p, row, col, r)
    ensures AtColumn(f, p, row, col + 1, r')
    ensures r'.c == if col < |LineAt(p, row)| then LineAt(p, row)[col] else NL
    ensures r'.c == NL <==> col >= |LineAt(p, row)|
    ensures Left(f, r') <= Left(f, r) && (r.c != NL ==> Left(f, r') < Left(f, r))
  {
    r' := r;
    if r.c != NL {
      if r.pos == |f| {
        assert f[r.pos..] == [] && Lines([])[0] == p[row][col..];
        r' := r.(c := NL, eof := true);
      } else {
        NextOfLine(f, p, row, col, r.pos);
        r' := r.(c := f[r.pos], pos := r.pos + 1);
      }
    }
  }

  /** The reset at the end of a row. */
  method NextRow(f: seq<Byte>, ghost p: Picture, ghost row: nat, ghost col: nat, r: Reader) returns (r': Reader)
    requires AtColumn(f, p, row, col, r) && r.c == NL
    ensures AtRow(f, p, row + 1, r') && Left(f, r') == Left(f, r)
  {
    r' := r.(c := if r.eof then NL else Ascii('0'));
    if !r.eof {
      assert p[row + 1..][0][0..] == p[row + 1..][0];
      assert p[row + 1..] == [p[row + 1][0..]] + p[row + 2..];
    }
  }

  /** The listing of one position: itself, or nothing if it is blank. */
  function CellsHere(p0: Picture, p1: Picture, c: Cell): seq<Cell> {
    if NonBlank(p0, p1, c) then [c] else []
  }

  /** The add for the bytes just read at a position, if either is visible. */
  method AddCell(ghost p0: Picture, ghost p1: Picture, row: nat, col: nat, c0: Byte, c1: Byte)
    returns (adds: seq<Blink>)
    requires c0 == (if col < |LineAt(p0, row)| then LineAt(p0, row)[col] else NL)
    requires c1 == (if col < |LineAt(p1, row)| then LineAt(p1, row)[col] else NL)
    requires (c0 == NL <==> col >= |LineAt(p0, row)|) && (c1 == NL <==> col >= |LineAt(p1, row)|)
    ensures adds == AddsAt(p0, p1, CellsHere(p0, p1, Cell(row, col)))
  {
    adds := [];
    if (c0 != SPACE && c0 != NL) || (c1 != SPACE && c1 != NL) {
      var on, off := if c0 == NL then SPACE else c0, if c1 == NL then SPACE else c1;
      adds := [Blink((row * 80 + col + OFFSET) % 0x1_0000, on, off, LENGTH, LENGTH, 0, 0)];
    }
  }

  lemma AddsAppend(p0: Picture, p1: Picture, a: seq<Cell>, b: seq<Cell>)
    ensures AddsAt(p0, p1, a + b) == AddsAt(p0, p1, a) + AddsAt(p0, p1, b)
  {
  }

  /** `adds` covers the listing from one position up to another. */
  ghost predicate Covers(p0: Picture, p1: Picture, adds: seq<Blink>, from: Cell, to: Cell) {
    exists cells ::
      && CellsFrom(p0, p1, from.row, from.col) == cells + CellsFrom(p0, p1, to.row, to.col)
      && adds == AddsAt(p0, p1, cells)
  }

  lemma CoversNothing(p0: Picture, p1: Picture, at: Cell)
    ensures Covers(p0, p1, [], at, at)
  {
    assert CellsFrom(p0, p1, at.row, at.col) == [] + CellsFrom(p0, p1, at.row, at.col);
    assert AddsAt(p0, p1, []) == [];
  }

  lemma CoversBoth(p0: Picture, p1: Picture, a: seq<Blink>, b: seq<Blink>, from: Cell, mid: Cell, to: Cell)
    requires Covers(p0, p1, a, from, mid) && Covers(p0, p1, b, mid, to)
    ensures Covers(p0, p1, a + b, from, to)
  {
    var x :| CellsFrom(p0, p1, from.row, from.col) == x + CellsFrom(p0, p1, mid.row, mid.col) && a == AddsAt(p0, p1, x);
    var y :| CellsFrom(p0, p1, mid.row, mid.col) == y + CellsFrom(p0, p1, to.row, to.col) && b == AddsAt(p0, p1, y);
    AddsAppend(p0, p1, x, y);
    Associate(x, y, CellsFrom(p0, p1, to.row, to.col));
  }

  lemma CoversCell(p0: Picture, p1: Picture, row: nat, col: nat)
    requires row < Rows(p0, p1) && col < Width(p0, p1, row)
    ensures Covers(p0, p1, AddsAt(p0, p1, CellsHere(p0, p1, Cell(row, col))), Cell(row, col), Cell(row, col + 1))
  {
  }

  lemma CoversRowEnd(p0: Picture, p1: Picture, row: nat, col: nat)
    requires Width(p0, p1, row) <= col
    ensures Covers(p0, p1, [], Cell(row, col), Cell(row + 1, 0))
  {
    assert CellsFrom(p0, p1, row, col) == [] + CellsFrom(p0, p1, row + 1, 0);
    assert AddsAt(p0, p1, []) == [];
  }

  /** One column: reads both files where their rows have not ended. */
  method AddColumn(
    f0: seq<Byte>, f1: seq<Byte>, ghost p0: Picture, ghost p1: Picture, row: nat, col: nat, s0: Reader, s1: Reader)
    returns (r0: Reader, r1: Reader, ended: bool, adds: seq<Blink>)
    requires AtColumn(f0, p0, row, col, s0) && AtColumn(f1, p1, row, col, s1) && (s0.c != NL || s1.c != NL)
    ensures AtColumn(f0, p0, row, col + 1, r0) && AtColumn(f1, p1, row, col + 1, r1)
    ensures ended <==> r0.c == NL && r1.c == NL
    ensures Covers(p0, p1, adds, Cell(row, col), if ended then Cell(row + 1, 0) else Cell(row, col + 1))
    ensures Left(f0, r0) + Left(f1, r1) < Left(f0, s0) + Left(f1, s1)
  {
    r0 := NextByte(f0, p0, row, col, s0);
    r1 := NextByte(f1, p1, row, col, s1);
    ended := r0.c == NL && r1.c == NL;
    if ended {
      adds := [];
      CoversRowEnd(p0, p1, row, col);
    } else {
      adds := AddCell(p0, p1, row, col, r0.c, r1.c);
      CoversCell(p0, p1, row, col);
    }
  }

  /** One row of adds. */
  method AddRow(f0: seq<Byte>, f1: seq<Byte>, ghost p0: Picture, ghost p1: Picture, row: nat, s0: Reader, s1: Reader)
    returns (r0: Reader, r1: Reader, adds: seq<Blink>)
    requires AtRow(f0, p0, row, s0) && AtRow(f1, p1, row, s1) && (!s0.eof || !s1.eof)
    ensures AtRow(f0, p0, row + 1, r0) && AtRow(f1, p1, row + 1, r1)
    ensures Covers(p0, p1, adds, Cell(row, 0), Cell(row + 1, 0))
    ensures Left(f0, r0) + Left(f1, r1) < Left(f0, s0) + Left(f1, s1)
  {
    r0, r1, adds := s0, s1, [];
    var col: nat, ended := 0, false;
    CoversNothing(p0, p1, Cell(row, 0));
    while !ended
      invariant AtColumn(f0, p0, row, col, r0) && AtColumn(f1, p1, row, col, r1)
      invariant Covers(p0, p1, adds, Cell(row, 0), if ended then Cell(row + 1, 0) else Cell(row, col))
      invariant ended <==> r0.c == NL && r1.c == NL
      invariant Left(f0, r0) + Left(f1, r1) <= Left(f0, s0) + Left(f1, s1) - if ended then 1 else 0
      decreases Left(f0, r0) + Left(f1, r1)
    {
      var more;
      r0, r1, ended, more := AddColumn(f0, f1, p0, p1, row, col, r0, r1);
      ghost var next := if ended then Cell(row + 1, 0) else Cell(row, col + 1);
      CoversBoth(p0, p1, adds, more, Cell(row, 0), Cell(row, col), next);
      adds, col := adds + more, col + 1;
    }
    r0 := NextRow(f0, p0, row, col, r0);
    r1 := NextRow(f1, p1, row, col, r1);
  }

  lemma FirstRow(f: seq<Byte>)
    ensures AtRow(f, Lines(f), 0, Reader(0, Ascii('0'), false))
  {
  }

  /** `add_frames` with both files opened; `adds` are the structures passed to the driver, in order. */
  method AddFrames(f0: seq<Byte>, f1: seq<Byte>) returns (adds: seq<Blink>)
    ensures adds == FrameAdds(Lines(f0), Lines(f1))
  {
    ghost var p0, p1 := Lines(f0), Lines(f1);
    adds := [];
    var r0, r1 := Reader(0, Ascii('0'), false), Reader(0, Ascii('0'), false);
    var row: nat := 0;
    FirstRow(f0);
    FirstRow(f1);
    CoversNothing(p0, p1, Cell(0, 0));
    while !r0.eof || !r1.eof
      invariant AtRow(f0, p0, row, r0) && AtRow(f1, p1, row, r1)
      invariant Covers(p0, p1, adds, Cell(0, 0), Cell(row, 0))
      decreases Left(f0, r0) + Left(f1, r1)
    {
      var more;
      r0, r1, more := AddRow(f0, f1, p0, p1, row, r0, r1);
      CoversBoth(p0, p1, adds, more, Cell(0, 0), Cell(row, 0), Cell(row + 1, 0));
      adds, row := adds + more, row + 1;
    }
    CoversAll(p0, p1, adds, row);
  }

  lemma CoversAll(p0: Picture, p1: Picture, adds: seq<Blink>, row: nat)
    requires Covers(p0, p1, adds, Cell(0, 0), Cell(row, 0)) && Rows(p0, p1) <= row + 1
    requires |LineAt(p0, row)| == |LineAt(p1, row)| == 0
    ensures adds == FrameAdds(p0, p1)
  {
    var cells :| CellsFrom(p0, p1, 0, 0) == cells + CellsFrom(p0, p1, row, 0) && adds == AddsAt(p0, p1, cells);
    assert CellsFrom(p0, p1, row, 0) == CellsFrom(p0, p1, row + 1, 0) == [];
  }

  // ---------------------------------------------------------------- the animation

  /** Both pictures fit on the screen, 40 columns to the right. */
  ghost predicate OnScreen(p0: Picture, p1: Picture) {
    forall c :: NonBlank(p0, p1, c) ==> c.col < 80 && c.row * 80 + c.col + OFFSET < SLOTS
  }

  /** Different places on the screen, none of them in use on the board. */
  ghost predicate NewPlaces(d: Board, adds: seq<Blink>) {
    && (forall k :: 0 <= k < |adds| ==> adds[k].location < SLOTS)
    && (forall j, k :: 0 <= j < k < |adds| ==> adds[j].location != adds[k].location)
    && (forall i, k :: 0 <= i < |d.list| && 0 <= k < |adds| ==> d.list[i].location != adds[k].location)
  }

  function Program(adds: seq<Blink>, ticks: nat): (ops: seq<Op>) {
    seq(|adds|, k requires 0 <= k < |adds| => Op.Add(adds[k])) + seq(ticks, _ => Op.Tick)
  }

  lemma ProgramNext(adds: seq<Blink>, ticks: nat)
    requires adds != []
    ensures Program(adds, ticks) == [Op.Add(adds[0])] + Program(adds[1..], ticks)
    ensures Program(adds, ticks)[1..] == Program(adds[1..], ticks)
  {
  }

  lemma {:induction false} ProgramTicks(adds: seq<Blink>, ticks: nat)
    ensures Ticks(Program(adds, ticks)) == ticks
    decreases |adds| + ticks
  {
    if adds != [] {
      ProgramNext(adds, ticks);
      ProgramTicks(adds[1..], ticks);
    } else if ticks > 0 {
      assert Program([], ticks)[1..] == Program([], ticks - 1);
      ProgramTicks([], ticks - 1);
    }
  }

  ghost function Places(list: seq<Blink>): (r: seq<nat>)
    ensures |r| == |list| && forall k :: 0 <= k < |r| ==> r[k] == list[k].location
    ensures DistinctLocations(list) ==> Distinct(r)
  {
    seq(|list|, k requires 0 <= k < |list| => list[k].location)
  }

  /** A list of different places below `n` that leaves one out is shorter than `n`. */
  lemma PlaceLeft(list: seq<Blink>, location: Word, n: nat)
    requires DistinctLocations(list) && location < n
    requires forall i :: 0 <= i < |list| ==> list[i].location < n && list[i].location != location
    ensures |list| < n && Find(list, location) == |list|
  {
    var others := Below(n) - {location};
    assert |Below(n)| == |others| + 1;
    DistinctFit(Places(list), others);
    FindIs(list, location, |list|);
  }

  lemma AfterAdd(d: Board, adds: seq<Blink>)
    requires Agrees(d) && NewPlaces(d, adds) && adds != []
    ensures CanAdd(d, adds[0]) && Find(d.list, adds[0].location) == |d.list|
    ensures Agrees(Added(d, adds[0])) && NewPlaces(Added(d, adds[0]), adds[1..])
  {
    PlaceLeft(d.list, adds[0].location, SLOTS);
    AddAgrees(d, adds[0]);
  }

  lemma {:induction false} ProgramFresh(d: Board, adds: seq<Blink>, ticks: nat)
    requires Agrees(d) && NewPlaces(d, adds)
    ensures AllKeepAgreement(d, Program(adds, ticks))
    decreases |adds| + ticks
  {
    if adds != [] {
      ProgramNext(adds, ticks);
      AfterAdd(d, adds);
      ProgramFresh(Added(d, adds[0]), adds[1..], ticks);
    } else if ticks > 0 {
      assert Program([], ticks)[1..] == Program([], ticks - 1);
      TickAgrees(d);
      ProgramFresh(Ticked(d), [], ticks - 1);
    }
  }

  lemma FirstShows(d: Board, adds: seq<Blink>, ticks: nat)
    requires Agrees(d) && NewPlaces(d, adds) && adds != []
    ensures Steps(d, Program(adds, ticks)).video[2 * adds[0].location] ==
      if ticks % Period(adds[0]) < Span(adds[0].onLength) then adds[0].onChar else adds[0].offChar
  {
    ProgramNext(adds, ticks);
    ProgramFresh(d, adds, ticks);
    AfterAdd(d, adds);
    ProgramTicks(adds[1..], ticks);
    ShowsPhase(d, adds[0], Program(adds[1..], ticks));
  }

  lemma {:induction false} ProgramShows(d: Board, adds: seq<Blink>, ticks: nat, k: nat)
    requires Agrees(d) && NewPlaces(d, adds) && k < |adds|
    ensures Steps(d, Program(adds, ticks)).video[2 * adds[k].location] ==
      if ticks % Period(adds[k]) < Span(adds[k].onLength) then adds[k].onChar else adds[k].offChar
    decreases |adds|
  {
    if k == 0 {
      FirstShows(d, adds, ticks);
    } else {
      ProgramNext(adds, ticks);
      AfterAdd(d, adds);
      ProgramShows(Added(d, adds[0]), adds[1..], ticks, k - 1);
    }
  }

  /** The program of fish.c: all frames added, then ticked; on an empty board. */
  function Animated(video: seq<Byte>, p0: Picture, p1: Picture, ticks: nat): (v: seq<Byte>)
    ensures |v| == |video|
  {
    Steps(Board([], video), Program(FrameAdds(p0, p1), ticks)).video
  }

  function Place(c: Cell): nat {
    c.row * 80 + c.col + OFFSET
  }

  lemma FramesPlaces(p0: Picture, p1: Picture)
    requires OnScreen(p0, p1)
    ensures var cs, adds := CellsFrom(p0, p1, 0, 0), FrameAdds(p0, p1);
      && |adds| == |cs|
      && (forall k :: 0 <= k < |cs| ==> adds[k] == AddAt(p0, p1, cs[k]) && adds[k].location == Place(cs[k]) < SLOTS)
      && (forall j, k :: 0 <= j < k < |adds| ==> adds[j].location < adds[k].location)
  {
    AddsExactly(p0, p1);
    var cs, adds := CellsFrom(p0, p1, 0, 0), FrameAdds(p0, p1);
    forall k | 0 <= k < |cs| ensures cs[k].col < 80 && adds[k].location == Place(cs[k]) < SLOTS {
      assert cs[k] in cs && NonBlank(p0, p1, cs[k]);
    }
    forall j, k | 0 <= j < k < |cs| ensures Place(cs[j]) < Place(cs[k]) {
      assert Before(cs[j], cs[k]);
    }
  }

  /** The screen shows the first picture and the second one in turn, for 15 ticks each, wherever either is not blank. */
  lemma PicturesAlternate(video: seq<Byte>, p0: Picture, p1: Picture, ticks: nat, c: Cell)
    requires |video| == VIDEO_BYTES && OnScreen(p0, p1) && NonBlank(p0, p1, c)
    ensures 2 * Place(c) < VIDEO_BYTES
    ensures Animated(video, p0, p1, ticks)[2 * Place(c)] == At(if ticks % 30 < 15 then p0 else p1, c)
  {
    CellsListed(p0, p1, 0, 0, c);
    FramesPlaces(p0, p1);
    var cs, adds := CellsFrom(p0, p1, 0, 0), FrameAdds(p0, p1);
    var k :| 0 <= k < |cs| && cs[k] == c;
    assert adds[k] == AddAt(p0, p1, c) && Period(adds[k]) == 30 && Span(adds[k].onLength) == 15;
    ProgramShows(Board([], video), adds, ticks, k);
  }

  /** Every other byte of the video memory keeps its value. */
  lemma PicturesKeepTheRest(video: seq<Byte>, p0: Picture, p1: Picture, ticks: nat, i: nat)
    requires i < |video| && OnScreen(p0, p1)
    requires forall c :: NonBlank(p0, p1, c) ==> 2 * Place(c) != i
    ensures Animated(video, p0, p1, ticks)[i] == video[i]
  {
    AddsExactly(p0, p1);
    FramesPlaces(p0, p1);
    var cs, ops := CellsFrom(p0, p1, 0, 0), Program(FrameAdds(p0, p1), ticks);
    forall k | 0 <= k < |ops| && ops[k].Add? ensures 2 * ops[k].b.location != i {
      assert cs[k] in cs && ops[k].b.location == Place(cs[k]);
    }
    RunElsewhere(Board([], video), ops, i);
  }

  lemma PicturesShown(video: seq<Byte>, p0: Picture, p1: Picture, ticks: nat)
    requires |video| == VIDEO_BYTES && OnScreen(p0, p1)
    ensures forall c :: NonBlank(p0, p1, c) ==>
      && 2 * (80 * c.row + c.col + 40) < VIDEO_BYTES
      && Animated(video, p0, p1, ticks)[2 * (80 * c.row + c.col + 40)] == At(if ticks % 30 < 15 then p0 else p1, c)
  {
    forall c | NonBlank(p0, p1, c)
      ensures var i := 2 * (80 * c.row + c.col + 40);
        i < VIDEO_BYTES && Animated(video, p0, p1, ticks)[i] == At(if ticks % 30 < 15 then p0 else p1, c)
    {
      PicturesAlternate(video, p0, p1, ticks, c);
      assert Place(c) == 80 * c.row + c.col + 40;
    }
  }

  lemma {:induction false} NoZeroAdds(d: Board, ops: seq<Op>)
    requires forall k :: 0 <= k < |ops| && ops[k].Add? ==> ops[k].b.location != 0
    ensures AllKeepPool(d, ops)
    decreases |ops|
  {
    if ops != [] {
      NoZeroAdds(Step(d, ops[0]), ops[1..]);
    }
  }

  lemma FramesKeepPool(d: Board, p0: Picture, p1: Picture, ticks: nat)
    requires OnScreen(p0, p1)
    ensures AllKeepPool(d, Program(FrameAdds(p0, p1), ticks))
  {
    FramesPlaces(p0, p1);
    NoZeroAdds(d, Program(FrameAdds(p0, p1), ticks));
  }

  /** The start of the program of fish.c, with an empty pool: the frames are added, then ticked. */
  method Animate(driver: Driver, f0: seq<Byte>, f1: seq<Byte>, ticks: nat)
    requires driver.Valid() && driver.Current().list == [] && OnScreen(Lines(f0), Lines(f1))
    modifies driver, driver.pool, driver.video
    ensures driver.Valid() && driver.video[..] == Animated(old(driver.video[..]), Lines(f0), Lines(f1), ticks)
    ensures forall c :: NonBlank(Lines(f0), Lines(f1), c) ==>
      driver.video[2 * (80 * c.row + c.col + 40)] == At(if ticks % 30 < 15 then Lines(f0) else Lines(f1), c)
  {
    ghost var before, p0, p1 := driver.video[..], Lines(f0), Lines(f1);
    var adds := AddFrames(f0, f1);
    FramesKeepPool(driver.Current(), p0, p1, ticks);
    driver.Run(Program(adds, ticks));
    PicturesShown(before, p0, p1, ticks);
  }
}
