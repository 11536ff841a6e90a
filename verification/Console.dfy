/** The text console (kernel/drivers/vga/vga.cpp:54-128). */
module Console {
  import opened Memory

  const WIDTH: nat := 80
  const HEIGHT: nat := 24
  const CELLS: nat := 1920
  const NEWLINE: Byte := 10
  const RETURN: Byte := 13

  /** A character and its attribute. */
  datatype Cell = Cell(ch: Byte, attr: Byte)

  const BLANK := Cell(0, 0)

  type Line = l: seq<Cell> | |l| <= WIDTH

  // ---------- The text that has been written ----------

  /** Lines of at most 80 cells, the last one being written at column col. */
  datatype Layout = Layout(lines: seq<Line>, col: nat) {
    ghost predicate Valid() {
      |lines| > 0 && col <= |lines[|lines| - 1]|
    }
  }

  const EMPTY := Layout([[]], 0)

  /** Put a cell on a line: over what is there, or at its end. */
  function Put(line: Line, col: nat, cell: Cell): (r: Line)
    requires col <= |line| && col < WIDTH
    ensures col < |r|
  {
    if col < |line| then line[col := cell] else line + [cell]
  }

  function Typed(t: Layout, c: Byte): (r: Layout)
    requires t.Valid()
    ensures r.Valid()
  {
    var last := |t.lines| - 1;
    if c == NEWLINE then Layout(t.lines + [[]], 0)
    else if c == RETURN then Layout(t.lines, 0)
    else if t.col >= WIDTH then Layout(t.lines + [[Cell(c, 0xf)]], 1)
    else Layout(t.lines[last := Put(t.lines[last], t.col, Cell(c, 0xf))], t.col + 1)
  }

  /** The layout of a text: wrapped at 80 columns, a return starts the line over. */
  function LayoutOf(text: seq<Byte>): (t: Layout)
    ensures t.Valid()
  {
    if text == [] then EMPTY else Typed(LayoutOf(text[..|text| - 1]), text[|text| - 1])
  }

  function Blanks(n: nat): seq<Cell> { seq(n, _ => BLANK) }

  function Pad(line: Line): seq<Cell> { line + Blanks(WIDTH - |line|) }

  /** Row r of a screen that shows the last 24 lines. */
  function ScreenRow(lines: seq<Line>, r: nat): (row: seq<Cell>)
    ensures |row| == WIDTH
  {
    var top := if |lines| > HEIGHT then |lines| - HEIGHT else 0;
    if top + r < |lines| then Pad(lines[top + r]) else Blanks(WIDTH)
  }

  /** Row r of the cell buffer. */
  function Row(cells: seq<Cell>, r: nat): seq<Cell>
    requires |cells| == CELLS && r < HEIGHT
  {
    cells[r * WIDTH..(r + 1) * WIDTH]
  }

  ghost predicate Shows(cells: seq<Cell>, lines: seq<Line>) {
    |cells| == CELLS && forall r :: 0 <= r < HEIGHT ==> Row(cells, r) == ScreenRow(lines, r)
  }

  // ---------- The driver ----------

  class Screen {
    const cells: array<Cell>      // VIDEO_BUFFER
    var lineNumber: nat
    var columnNumber: nat
    var vbuf: nat                 // cell index of the cursor
    ghost var text: seq<Byte>     // what was written since the screen was cleared

    ghost predicate Ready()
      reads this
    {
      cells.Length == CELLS && lineNumber < HEIGHT && columnNumber <= WIDTH && vbuf == lineNumber * WIDTH + columnNumber
    }

    /** The screen and the cursor are those of layout t. */
    ghost predicate Displays(t: Layout)
      reads this, cells
    {
      && t.Valid() && Ready()
      && lineNumber == (if |t.lines| > HEIGHT then HEIGHT else |t.lines|) - 1
      && columnNumber == t.col
      && Shows(cells[..], t.lines)
    }

    ghost predicate Valid()
      reads this, cells
    {
      Displays(LayoutOf(text))
    }

    constructor (cells: array<Cell>)
      requires cells.Length == CELLS
      modifies cells
      ensures Valid() && text == [] && this.cells == cells
    {
      this.cells, this.lineNumber, this.columnNumber, this.vbuf, this.text := cells, 0, 0, 0, [];
      new;
      Clear();
    }

    /** `place_cursor` */
    method PlaceCursor()
      requires cells.Length == CELLS && lineNumber < HEIGHT && columnNumber <= WIDTH
      modifies this`vbuf
      ensures Ready()
    {
      vbuf := lineNumber * WIDTH + columnNumber;
    }

    /** `cleark` */
    method Clear()
      requires cells.Length == CELLS
      modifies this, cells
      ensures Valid() && text == []
    {
      for i := 0 to CELLS
        invariant forall k :: 0 <= k < i ==> cells[k] == BLANK
      {
        cells[i] := BLANK;
      }
      lineNumber, columnNumber, text := 0, 0, [];
      PlaceCursor();
      BlankShows(cells[..]);
    }

    /** `memcpy` of a row from the one below it. */
    method CopyRow(dst: nat)
      requires dst + 2 * WIDTH <= cells.Length
      modifies cells
      ensures forall k :: dst <= k < dst + WIDTH ==> cells[k] == old(cells[k + WIDTH])
      ensures forall k :: 0 <= k < cells.Length && !(dst <= k < dst + WIDTH) ==> cells[k] == old(cells[k])
    {
      for j := 0 to WIDTH
        invariant forall k :: dst <= k < dst + j ==> cells[k] == old(cells[k + WIDTH])
        invariant forall k :: 0 <= k < cells.Length && !(dst <= k < dst + j) ==> cells[k] == old(cells[k])
      {
        cells[dst + j] := cells[dst + WIDTH + j];
      }
    }

    /** `scroll_lines(1)`: the memcpy of row i over row i - 1, then a blank last row. */
    method ScrollLine()
      requires cells.Length == CELLS
      modifies cells
      ensures forall r :: 0 <= r < HEIGHT - 1 ==> Row(cells[..], r) == old(Row(cells[..], r + 1))
      ensures Row(cells[..], HEIGHT - 1) == Blanks(WIDTH)
    {
      for i := 1 to HEIGHT
        invariant forall k :: 0 <= k < (i - 1) * WIDTH ==> cells[k] == old(cells[k + WIDTH])
        invariant forall k :: (i - 1) * WIDTH <= k < CELLS ==> cells[k] == old(cells[k])
      {
        CopyRow((i - 1) * WIDTH);
      }
      for j := 0 to WIDTH
        invariant forall k :: 0 <= k < (HEIGHT - 1) * WIDTH ==> cells[k] == old(cells[k + WIDTH])
        invariant forall k :: (HEIGHT - 1) * WIDTH <= k < (HEIGHT - 1) * WIDTH + j ==> cells[k] == BLANK
      {
        cells[(HEIGHT - 1) * WIDTH + j] := BLANK;
      }
    }

    /** `next_line` */
    method NextLine(ghost t: Layout)
      requires Displays(t)
      modifies this`lineNumber, this`columnNumber, this`vbuf, cells
      ensures Displays(Layout(t.lines + [[]], 0))
    {
      ghost var lines: seq<Line> := t.lines + [[]];
      ghost var before := cells[..];
      lineNumber := lineNumber + 1;
      if lineNumber >= HEIGHT {
        ScrollLine();
        lineNumber := HEIGHT - 1;
      }
      columnNumber := 0;
      PlaceCursor();
      NewLineShows(t.lines, before, cells[..]);
    }

    /** `kputc` */
    method Kputc(ghost t: Layout, c: Byte)
      requires Displays(t) && t.col < WIDTH
      modifies this`columnNumber, this`vbuf, cells
      ensures Displays(Layout(t.lines[|t.lines| - 1 := Put(t.lines[|t.lines| - 1], t.col, Cell(c, 0xf))], t.col + 1))
    {
      ghost var before := cells[..];
      cells[vbuf] := Cell(c, 0xf);
      vbuf := vbuf + 1;
      columnNumber := columnNumber + 1;
      PlaceCursor();
      PutShows(t, before, lineNumber, Cell(c, 0xf));
      assert cells[..] == before[lineNumber * WIDTH + t.col := Cell(c, 0xf)];
    }

    /** `kputchar`: whatever was written, the screen shows the end of its layout. */
    method KPutChar(c: Byte)
      requires Valid()
      modifies this, cells
      ensures Valid() && text == old(text) + [c]
    {
      hide Shows, Put;
      ghost var t := LayoutOf(text);
      text := text + [c];
      assert text[..|text| - 1] == old(text);
      if c == NEWLINE {
        NextLine(t);
      } else if c == RETURN {
        columnNumber := 0;
        PlaceCursor();
      } else if columnNumber >= WIDTH {
        NextLine(t);
        Kputc(Layout(t.lines + [[]], 0), c);
        PutOnNewLine(t.lines, Cell(c, 0xf));
      } else {
        Kputc(t, c);
      }
    }

    /** `vga_dev::write` */
    method Write(buf: seq<Byte>) returns (i: nat)
      requires Valid()
      modifies this, cells
      ensures Valid() && text == old(text) + buf && i == |buf|
    {
      hide *;
      i := 0;
      Appended(text, buf, 0);
      while i < |buf|
        invariant i <= |buf| && Valid() && text == old(text) + buf[..i]
      {
        KPutChar(buf[i]);
        Appended(old(text), buf, i);
        i := i + 1;
      }
      Appended(old(text), buf, |buf|);
    }
  }

  lemma Appended(text: seq<Byte>, buf: seq<Byte>, i: nat)
    requires i <= |buf|
    ensures i < |buf| ==> text + buf[..i] + [buf[i]] == text + buf[..i + 1]
    ensures i == 0 ==> text + buf[..i] == text
    ensures i == |buf| ==> buf[..i] == buf
  {
  }

  lemma BlankShows(cells: seq<Cell>)
    requires |cells| == CELLS && forall k :: 0 <= k < CELLS ==> cells[k] == BLANK
    ensures Shows(cells, EMPTY.lines)
  {
    hide ScreenRow;
    forall r | 0 <= r < HEIGHT ensures Row(cells, r) == ScreenRow(EMPTY.lines, r) {
      EmptyRow(r);
      assert Row(cells, r) == Blanks(WIDTH);
    }
  }

  lemma EmptyRow(r: nat)
    ensures ScreenRow(EMPTY.lines, r) == Blanks(WIDTH)
  {
  }

  lemma RowAfterNewLine(lines: seq<Line>, r: nat)
    requires r < HEIGHT
    ensures |lines| < HEIGHT ==> ScreenRow(lines + [[]], r) == ScreenRow(lines, r)
    ensures |lines| >= HEIGHT && r < HEIGHT - 1 ==> ScreenRow(lines + [[]], r) == ScreenRow(lines, r + 1)
    ensures |lines| >= HEIGHT && r == HEIGHT - 1 ==> ScreenRow(lines + [[]], r) == Blanks(WIDTH)
  {
  }

  /** Starting a line scrolls the last 24 lines exactly when the screen is full. */
  lemma NewLineShows(lines: seq<Line>, before: seq<Cell>, after: seq<Cell>)
    requires |lines| > 0 && Shows(before, lines) && |after| == CELLS
    requires |lines| < HEIGHT ==> after == before
    requires |lines| >= HEIGHT ==> forall r :: 0 <= r < HEIGHT - 1 ==> Row(after, r) == Row(before, r + 1)
    requires |lines| >= HEIGHT ==> Row(after, HEIGHT - 1) == Blanks(WIDTH)
    ensures Shows(after, lines + [[]])
  {
    hide Row, ScreenRow;
    forall r | 0 <= r < HEIGHT ensures Row(after, r) == ScreenRow(lines + [[]], r) {
      RowAfterNewLine(lines, r);
      if |lines| >= HEIGHT && r < HEIGHT - 1 {
        assert Row(after, r) == Row(before, r + 1);
        assert Row(before, r + 1) == ScreenRow(lines, r + 1);
      }
    }
  }

  lemma PutOnNewLine(lines: seq<Line>, cell: Cell)
    ensures (lines + [[]])[|lines| := Put([], 0, cell)] == lines + [[cell]]
  {
    assert Put([], 0, cell) == [cell];
  }

  lemma PutShows(t: Layout, before: seq<Cell>, line: nat, cell: Cell)
    requires t.Valid() && t.col < WIDTH && Shows(before, t.lines)
    requires line == (if |t.lines| > HEIGHT then HEIGHT else |t.lines|) - 1
    ensures line * WIDTH + t.col < CELLS
    ensures var last := |t.lines| - 1;
            Shows(before[line * WIDTH + t.col := cell], t.lines[last := Put(t.lines[last], t.col, cell)])
  {
    var last := |t.lines| - 1;
    var after := before[line * WIDTH + t.col := cell];
    var lines := t.lines[last := Put(t.lines[last], t.col, cell)];
    forall r | 0 <= r < HEIGHT ensures Row(after, r) == ScreenRow(lines, r) {
      assert Row(before, r) == ScreenRow(t.lines, r);
      if r == line {
        assert Row(after, r) == Row(before, r)[t.col := cell];
        assert Pad(t.lines[last])[t.col := cell] == Pad(lines[last]);
      } else {
        assert Row(after, r) == Row(before, r);
      }
    }
  }

  // ---------- What the layout means ----------

  predicate Printable(text: seq<Byte>) {
    forall i :: 0 <= i < |text| ==> text[i] != 10 && text[i] != 13
  }

  function Cells(text: seq<Byte>): (r: seq<Cell>)
    ensures |r| == |text|
  {
    seq(|text|, i requires 0 <= i < |text| => Cell(text[i], 0xf))
  }

  /** Text cut into full lines of 80 cells and the rest, which is empty only for the
      empty text: a full last line stays the last one until more is written. */
  ghost predicate Wrapped(text: seq<Byte>, t: Layout) {
    && |t.lines| == (if |text| == 0 then 1 else (|text| - 1) / 80 + 1)
    && t.col == |text| - 80 * (|t.lines| - 1)
    && (forall k :: 0 <= k < |t.lines| - 1 ==> t.lines[k] == Cells(text[k * 80..(k + 1) * 80]))
    && t.lines[|t.lines| - 1] == Cells(text[80 * (|t.lines| - 1)..])
  }

  lemma WrapStep(text: seq<Byte>, t: Layout, c: Byte)
    requires Wrapped(text, t) && t.Valid() && c != NEWLINE && c != RETURN
    ensures Wrapped(text + [c], Typed(t, c))
  {
    var u := Typed(t, c);
    var last := |t.lines| - 1;
    forall k | 0 <= k < |u.lines| - 1
      ensures u.lines[k] == Cells((text + [c])[k * WIDTH..(k + 1) * WIDTH])
    {
      if k < last {
        assert (text + [c])[k * WIDTH..(k + 1) * WIDTH] == text[k * WIDTH..(k + 1) * WIDTH];
      } else {
        assert (text + [c])[k * WIDTH..(k + 1) * WIDTH] == text[WIDTH * last..];
      }
    }
    if t.col >= WIDTH {
      assert (text + [c])[WIDTH * (last + 1)..] == [c];
    } else {
      assert (text + [c])[WIDTH * last..] == text[WIDTH * last..] + [c];
    }
  }

  lemma {:induction false} WrapsAtWidth(text: seq<Byte>)
    requires Printable(text)
    ensures Wrapped(text, LayoutOf(text))
  {
    if text != [] {
      var shorter := text[..|text| - 1];
      WrapsAtWidth(shorter);
      WrapStep(shorter, LayoutOf(shorter), text[|text| - 1]);
      assert shorter + [text[|text| - 1]] == text;
    }
  }

  /** Typing does not look at the lines above. */
  lemma TypedBelow(front: seq<Line>, t: Layout, c: Byte)
    requires t.Valid()
    ensures Typed(Layout(front + t.lines, t.col), c) == Layout(front + Typed(t, c).lines, Typed(t, c).col)
  {
  }

  /** A newline separates layouts: the text after it is laid out on its own. */
  lemma {:induction false} NewlineSeparates(a: seq<Byte>, b: seq<Byte>)
    ensures LayoutOf(a + [10] + b) == Layout(LayoutOf(a).lines + LayoutOf(b).lines, LayoutOf(b).col)
  {
    hide Typed;
    if b == [] {
      TypedNewline(LayoutOf(a));
      assert a + [NEWLINE] + b == a + [NEWLINE] && (a + [NEWLINE])[..|a|] == a;
    } else {
      NewlineSeparates(a, b[..|b| - 1]);
      TypedBelow(LayoutOf(a).lines, LayoutOf(b[..|b| - 1]), b[|b| - 1]);
      assert (a + [NEWLINE] + b)[..|a| + |b|] == a + [NEWLINE] + b[..|b| - 1];
    }
  }

  lemma TypedNewline(t: Layout)
    requires t.Valid()
    ensures Typed(t, NEWLINE) == Layout(t.lines + EMPTY.lines, 0)
  {
  }

  /** A line written over from the left. */
  function Over(top: Line, line: Line): Line {
    if |top| < |line| then top + line[|top|..] else top
  }

  /** Layout u written over the last line of `lines` and on from there. */
  function Onto(lines: seq<Line>, u: Layout): Layout
    requires |lines| > 0 && u.Valid()
  {
    Layout(lines[..|lines| - 1] + [Over(u.lines[0], lines[|lines| - 1])] + u.lines[1..], u.col)
  }

  lemma OntoParts(lines: seq<Line>, u: Layout)
    requires |lines| > 0 && u.Valid()
    ensures var r, last, n := Onto(lines, u), |lines| - 1, |u.lines| - 1;
            && |r.lines| == last + |u.lines| && r.Valid() && r.col == u.col
            && r.lines[last + n] == (if n == 0 then Over(u.lines[0], lines[last]) else u.lines[n])
  {
  }

  lemma OntoSnoc(lines: seq<Line>, u: Layout, line: Line, col: nat)
    requires |lines| > 0 && u.Valid() && col <= |line|
    ensures Onto(lines, Layout(u.lines + [line], col)) == Layout(Onto(lines, u).lines + [line], col)
  {
    assert (u.lines + [line])[1..] == u.lines[1..] + [line];
  }

  lemma OntoLast(lines: seq<Line>, u: Layout, line: Line, col: nat)
    requires |lines| > 0 && u.Valid() && col <= |line|
    ensures var r, last, n := Onto(lines, u), |lines| - 1, |u.lines| - 1;
            Onto(lines, Layout(u.lines[n := line], col))
            == Layout(r.lines[last + n := if n == 0 then Over(line, lines[last]) else line], col)
  {
    OntoParts(lines, u);
    var n := |u.lines| - 1;
    if n > 0 {
      assert u.lines[n := line][1..] == u.lines[1..][n - 1 := line];
    } else {
      assert u.lines[n := line][1..] == [] == u.lines[1..];
    }
  }

  lemma OverPut(top: Line, line: Line, col: nat, cell: Cell)
    requires col <= |top| && col < WIDTH
    ensures Put(Over(top, line), col, cell) == Over(Put(top, col, cell), line)
  {
    var l, r := Put(Over(top, line), col, cell), Over(Put(top, col, cell), line);
    assert |l| == |r|;
    forall i | 0 <= i < |l| ensures l[i] == r[i] {
    }
  }

  /** Typing over a line is typing on an empty one and laying the result over it. */
  lemma OntoTyped(lines: seq<Line>, u: Layout, c: Byte)
    requires |lines| > 0 && u.Valid()
    ensures Onto(lines, u).Valid() && Typed(Onto(lines, u), c) == Onto(lines, Typed(u, c))
  {
    hide Onto, Over, Put;
    OntoParts(lines, u);
    var n := |u.lines| - 1;
    if c == NEWLINE {
      OntoSnoc(lines, u, [], 0);
    } else if c == RETURN {
      OntoLast(lines, u, u.lines[n], 0);
      assert u.lines[n := u.lines[n]] == u.lines;
    } else if u.col >= WIDTH {
      OntoSnoc(lines, u, [Cell(c, 0xf)], 1);
    } else {
      OverPut(u.lines[n], lines[|lines| - 1], u.col, Cell(c, 0xf));
      OntoLast(lines, u, Put(u.lines[n], u.col, Cell(c, 0xf)), u.col + 1);
    }
  }

  /** After a return, any text is laid out as on an empty screen, its first line written
      over the line the return was on: what is longer on that line stays, and so do all
      lines above. */
  lemma {:induction false} ReturnOverwrites(a: seq<Byte>, b: seq<Byte>)
    ensures LayoutOf(a + [13] + b) == Onto(LayoutOf(a).lines, LayoutOf(b))
  {
    hide Typed, Onto;
    if b == [] {
      OntoEmpty(LayoutOf(a));
      assert a + [RETURN] + b == a + [RETURN] && (a + [RETURN])[..|a|] == a;
    } else {
      ReturnOverwrites(a, b[..|b| - 1]);
      OntoTyped(LayoutOf(a).lines, LayoutOf(b[..|b| - 1]), b[|b| - 1]);
      assert (a + [RETURN] + b)[..|a| + |b|] == a + [RETURN] + b[..|b| - 1];
    }
  }

  /** Cell by cell: what was typed after the return is in front, behind it the rest of the
      line that was there. */
  lemma ReturnMeans(a: seq<Byte>, b: seq<Byte>, c: nat)
    ensures var t, p, u := LayoutOf(a + [13] + b), LayoutOf(a), LayoutOf(b); var last := |p.lines| - 1;
            && |t.lines| == last + |u.lines| && t.col == u.col
            && t.lines[..last] == p.lines[..last] && t.lines[last + 1..] == u.lines[1..]
            && (c < |t.lines[last]| <==> c < |p.lines[last]| || c < |u.lines[0]|)
            && (c < |t.lines[last]| ==>
                  t.lines[last][c] == if c < |u.lines[0]| then u.lines[0][c] else p.lines[last][c])
  {
    hide LayoutOf;
    ReturnOverwrites(a, b);
  }

  lemma OntoEmpty(t: Layout)
    requires t.Valid()
    ensures Typed(t, RETURN) == Onto(t.lines, EMPTY)
  {
    var last := |t.lines| - 1;
    assert Over([], t.lines[last]) == t.lines[last];
    assert t.lines == t.lines[..last] + [t.lines[last]] + EMPTY.lines[1..];
  }

  // ---------- What is on the screen ----------

  /** Cell c of row r: the layout's line that far above its end, or nothing. The cursor is at
      the end of what was typed last. */
  lemma ScreenMeans(s: Screen, r: nat, c: nat)
    requires s.Valid() && r < 24 && c < 80
    ensures s.cells.Length == 1920
    ensures var t := LayoutOf(s.text); var top := if |t.lines| > 24 then |t.lines| - 24 else 0;
            && s.cells[80 * r + c]
               == (if top + r < |t.lines| && c < |t.lines[top + r]| then t.lines[top + r][c] else Cell(0, 0))
            && s.vbuf == 80 * (|t.lines| - 1 - top) + t.col
  {
    var lines := LayoutOf(s.text).lines;
    assert Row(s.cells[..], r) == ScreenRow(lines, r);
    assert s.cells[80 * r + c] == Row(s.cells[..], r)[c];
  }

  /** Text without control characters: character k is at column k modulo 80, white on black,
      in line k / 80, as long as that line is one of the last 24. */
  lemma TextOnScreen(s: Screen, k: nat)
    requires s.Valid() && Printable(s.text) && k < |s.text|
    ensures var lines := (|s.text| - 1) / 80 + 1; var top := if lines > 24 then lines - 24 else 0;
            k / 80 < lines
            && (top <= k / 80 ==>
                  s.cells.Length == 1920 && 80 * (k / 80 - top) + k % 80 < 1920
                  && s.cells[80 * (k / 80 - top) + k % 80] == Cell(s.text[k], 0x0f))
  {
    hide LayoutOf, Screen.Displays;
    var t := LayoutOf(s.text);
    WrapsAtWidth(s.text);
    CharacterAt(s.text, t, k);
    var top := if |t.lines| > 24 then |t.lines| - 24 else 0;
    if top <= k / 80 {
      ScreenMeans(s, k / 80 - top, k % 80);
    }
  }

  lemma CharacterAt(text: seq<Byte>, t: Layout, k: nat)
    requires Wrapped(text, t) && k < |text| && |t.lines| > 0
    ensures |t.lines| == (|text| - 1) / 80 + 1
    ensures k / 80 < |t.lines| && k % 80 < |t.lines[k / 80]| && t.lines[k / 80][k % 80] == Cell(text[k], 0x0f)
  {
    var q, c := k / 80, k % 80;
    assert k == 80 * q + c;
    if q < |t.lines| - 1 {
      assert t.lines[q] == Cells(text[q * 80..(q + 1) * 80]);
      assert text[q * 80..(q + 1) * 80][c] == text[k];
    } else {
      assert text[80 * q..][c] == text[k];
    }
  }
}
