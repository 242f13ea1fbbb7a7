/** What the screen shows of everything that was ever written to it. */
module ScreenLayout {
  import opened Screen
  import opened TextRows

  // ---------- A window on an unbounded document ----------

  ghost predicate Rows(rows: seq<string>) {
    rows != [] && forall r :: 0 <= r < |rows| ==> |rows[r]| <= COLS
  }

  /** How many rows of the document have left the screen at the top. */
  function Top(rows: seq<string>): nat {
    if |rows| <= ROWS then 0 else |rows| - ROWS
  }

  function Shown(rows: seq<string>, r: nat, col: nat): Cell {
    if r < |rows| && col < |rows[r]| then Cell(rows[r][col], ATTRIB) else BLANK
  }

  /** The last 25 rows of a document, with the cursor at its end. A row that was just filled leaves the
      cursor at its start, for a next line must follow. */
  function Window(rows: seq<string>): (g: Grid)
    requires Rows(rows)
    ensures OnScreen(g)
    ensures forall i :: 0 <= i < CELLS ==> g.cells[i] == Shown(rows, Top(rows) + i / COLS, i % COLS)
  {
    Grid(seq(CELLS, i requires 0 <= i < CELLS => Shown(rows, Top(rows) + i / COLS, i % COLS)),
         |rows[|rows| - 1]| % COLS, |rows| - 1 - Top(rows), Top(rows))
  }

  lemma CellIndex(i: nat)
    requires i < CELLS
    ensures (i + COLS) / COLS == i / COLS + 1 && (i + COLS) % COLS == i % COLS && i / COLS < ROWS
  {
  }

  /** A next line begins an empty row. */
  lemma WindowNextLine(rows: seq<string>)
    requires Rows(rows)
    ensures Rows(rows + [""]) && NextLine(Window(rows)) == Window(rows + [""])
  {
    var next, g := rows + [""], NextLine(Window(rows));
    forall r, col: nat | 0 <= r ensures Shown(next, r, col) == Shown(rows, r, col) {
    }
    forall i | 0 <= i < CELLS ensures g.cells[i] == Window(next).cells[i] {
      CellIndex(i);
    }
    assert g.cells == Window(next).cells;
  }

  /** A character goes to the end of the open row. */
  lemma WindowPut(closed: seq<string>, open: string, c: char)
    requires Rows(closed + [open]) && |open| < COLS && c != '\n' && c != '\r'
    ensures Rows(closed + [open + [c]]) && Putc(Window(closed + [open]), c) == Window(closed + [open + [c]])
  {
    RowsReplace(closed, open, open + [c]);
    hide Shown, Window, Putc;
    var rows, next := closed + [open], closed + [open + [c]];
    CursorOf(rows);
    CursorOf(next);
    var g := Putc(Window(rows), c);
    PutCursor(Window(rows), c);
    forall i | 0 <= i < CELLS ensures g.cells[i] == Window(next).cells[i] {
      WindowPutCell(closed, open, c, i);
    }
    assert g.cells == Window(next).cells;
  }

  lemma WindowPutCell(closed: seq<string>, open: string, c: char, i: nat)
    requires Rows(closed + [open]) && Rows(closed + [open + [c]]) && |open| < COLS && c != '\n' && c != '\r'
    requires i < CELLS
    ensures Putc(Window(closed + [open]), c).cells[i] == Window(closed + [open + [c]]).cells[i]
  {
    hide Shown, Window, Putc;
    var rows := closed + [open];
    CursorOf(rows);
    PutShown(closed, open, c, Top(rows) + i / COLS, i % COLS);
    RowAndColumn(i, |rows| - 1 - Top(rows), |open|);
    PutCell(Window(rows), c, i);
  }

  lemma PutCursor(g: Grid, c: char)
    requires OnScreen(g) && c != '\n' && c != '\r'
    ensures Putc(g, c).x == (g.x + 1) % COLS && Putc(g, c).y == g.y && Putc(g, c).top == g.top
  {
  }

  lemma PutCell(g: Grid, c: char, i: nat)
    requires OnScreen(g) && c != '\n' && c != '\r' && i < CELLS
    ensures Putc(g, c).cells[i] == if i == Position(g) then Cell(c, ATTRIB) else g.cells[i]
  {
  }

  lemma RowsReplace(closed: seq<string>, open: string, now: string)
    requires Rows(closed + [open]) && |now| <= COLS
    ensures Rows(closed + [now])
  {
    assert forall r :: 0 <= r < |closed| ==> (closed + [now])[r] == (closed + [open])[r];
  }

  lemma RowAndColumn(i: nat, row: nat, col: nat)
    requires col < COLS
    ensures i == row * COLS + col <==> i / COLS == row && i % COLS == col
  {
  }

  lemma PutShown(closed: seq<string>, open: string, c: char, r: nat, col: nat)
    ensures Shown(closed + [open + [c]], r, col)
         == if r == |closed| && col == |open| then Cell(c, ATTRIB) else Shown(closed + [open], r, col)
  {
  }

  /** Writing a character lays it out. */
  lemma WindowWrite(rows: seq<string>, c: char)
    requires Rows(rows) && |rows[|rows| - 1]| < COLS && c != '\r'
    ensures Rows(Extend(rows, c, COLS)) && WriteChar(Window(rows), c) == Window(Extend(rows, c, COLS))
  {
    hide Window, Shown, Top;
    var closed, open := rows[..|rows| - 1], rows[|rows| - 1];
    assert rows == closed + [open];
    CursorOf(rows);
    if c == '\n' {
      WindowNextLine(rows);
      assert Extend(rows, c, COLS) == rows + [""];
    } else {
      WindowPut(closed, open, c);
      if |open| == COLS - 1 {
        WindowNextLine(closed + [open + [c]]);
        assert Extend(rows, c, COLS) == closed + [open + [c]] + [""];
      }
    }
  }

  lemma CursorOf(rows: seq<string>)
    requires Rows(rows)
    ensures Window(rows).x == |rows[|rows| - 1]| % COLS && Window(rows).y == |rows| - 1 - Top(rows)
    ensures Window(rows).top == Top(rows)
  {
  }

  /** From a cleared screen on, the screen is the window on the layout of everything written, in however
      many pieces it came. */
  lemma {:induction false} ScreenShowsText(text: string)
    requires '\r' !in text
    ensures OnScreen(ClearedScreen()) && Rows(Wrap(text, COLS))
    ensures WriteAll(ClearedScreen(), text) == Window(Wrap(text, COLS))
  {
    hide Window, Shown, Top, WriteChar, Extend;
    WrapRowBounds(text, COLS);
    if text == [] {
      WrapOpen(text, COLS);
      EmptyWindow();
    } else {
      var before, c := text[..|text| - 1], text[|text| - 1];
      assert text == before + [c];
      ScreenShowsText(before);
      WriteNext(ClearedScreen(), before, c);
      WrapAppend(before, c, COLS);
      WrapRowBounds(before, COLS);
      WindowWrite(Wrap(before, COLS), c);
    }
  }

  lemma EmptyWindow()
    ensures Rows([""]) && ClearedScreen() == Window([""])
  {
    assert BlankCells() == Window([""]).cells;
  }

  // ---------- Erasing what was echoed ----------

  predicate Printable(text: string) {
    '\n' !in text && '\r' !in text
  }

  /** The rows that scroll away while `k` characters are written from `position` on. */
  function Scrolls(position: int, k: nat): nat {
    if position + k < CELLS then 0 else (position + k - CELLS) / COLS + 1
  }

  /** Columns from which writing moves on cell by cell: further left, the remainder that keeps the
      column on the row would skip a row. */
  ghost predicate WritesOn(g: Grid) {
    Writable(g) && g.x + COLS >= 0
  }

  /** The screen with the text written over it from the cursor on, cells counted in the document: the
      first `s` rows have scrolled away. */
  ghost predicate Overwritten(g: Grid, r: Grid, text: string, s: nat)
    requires WritesOn(g) && WritesOn(r)
  {
    var p := Position(g);
    && Position(r) == p + |text| - COLS * s && r.top == g.top + s
    && forall i :: 0 <= i < CELLS ==> r.cells[i] == OverwrittenCell(g, text, s, i)
  }

  function OverwrittenCell(g: Grid, text: string, s: nat, i: int): Cell
    requires |g.cells| == CELLS
  {
    var j, p := i + COLS * s, Position(g);
    if p <= j < p + |text| then Cell(text[j - p], ATTRIB) else if 0 <= j < CELLS then g.cells[j] else BLANK
  }

  /** The character fills the cell at the cursor, the cursor goes on to the next, and behind the last the
      screen scrolls. */
  ghost predicate StepsOn(g: Grid, r: Grid, c: char)
    requires WritesOn(g)
  {
    var p := Position(g);
    if p + 1 < CELLS then
      Position(r) == p + 1 && r.top == g.top && r.cells == g.cells[p := Cell(c, ATTRIB)]
    else
      && Position(r) == p + 1 - COLS && r.top == g.top + 1
      && r.cells == Scrolled(g.cells[p := Cell(c, ATTRIB)])
  }

  lemma PrintableStep(g: Grid, c: char)
    requires WritesOn(g) && c != '\n' && c != '\r'
    ensures var r, p := WriteChar(g, c), Position(g);
            WritesOn(r) && 0 <= p < CELLS
            && StepsOn(g, r, c)
  {
    hide Scrolled;
  }

  /** How many cells a character leaves out, from column `x` on: the remainder that keeps the column on
      the row goes wrong beyond 80 columns to the left. */
  function Skipped(x: int): nat {
    if x + COLS >= 0 then 0 else COLS * ((-1 - x) / COLS)
  }

  lemma SkipsCells(g: Grid, c: char)
    requires Writable(g) && c != '\n' && c != '\r'
    ensures WritesOn(WriteChar(g, c)) && Place(WriteChar(g, c)) == Place(g) + 1 + Skipped(g.x)
  {
    hide WriteChar;
    if g.x + COLS >= 0 {
      PrintableStep(g, c);
    } else {
      SkipsFar(g, c);
    }
  }

  lemma SkipsFar(g: Grid, c: char)
    requires Writable(g) && g.x + COLS < 0 && c != '\n' && c != '\r'
    ensures WritesOn(WriteChar(g, c)) && Place(WriteChar(g, c)) == Place(g) + 1 + COLS * ((-1 - g.x) / COLS)
  {
    var n := -1 - g.x;
    assert n == COLS * (n / COLS) + n % COLS;
  }

  /** Only the first character of a text can leave cells out. */
  lemma {:induction false} SkipsOnce(g: Grid, text: string)
    requires Writable(g) && Printable(text) && text != ""
    ensures WritesOn(WriteAll(g, text)) && Place(WriteAll(g, text)) == Place(g) + |text| + Skipped(g.x)
  {
    hide WriteChar, Place, Skipped;
    var before, c := text[..|text| - 1], text[|text| - 1];
    assert text == before + [c];
    WriteNext(g, before, c);
    SkipsCells(WriteAll(g, before), c);
    if before == "" {
      assert WriteAll(g, before) == g;
    } else {
      SkipsOnce(g, before);
      SkipsNone(WriteAll(g, before));
    }
  }

  lemma SkipsNone(g: Grid)
    requires Writable(g)
    ensures WritesOn(g) <==> Skipped(g.x) == 0
  {
  }

  lemma {:induction false} EchoOverwrites(g: Grid, text: string)
    requires WritesOn(g) && Printable(text)
    ensures WritesOn(WriteAll(g, text)) && Overwritten(g, WriteAll(g, text), text, Scrolls(Position(g), |text|))
  {
    hide WriteChar;
    if text != [] {
      var before, c := text[..|text| - 1], text[|text| - 1];
      assert text == before + [c];
      EchoOverwrites(g, before);
      WriteNext(g, before, c);
      var h := WriteAll(g, before);
      PrintableStep(h, c);
      OverwriteOne(g, h, WriteChar(h, c), before, c);
    }
  }

  lemma OverwriteOne(g: Grid, h: Grid, r: Grid, before: string, c: char)
    requires WritesOn(g) && WritesOn(h) && WritesOn(r)
    requires var s := Scrolls(Position(g), |before|);
             Overwritten(g, h, before, s)
    requires StepsOn(h, r, c)
    ensures Overwritten(g, r, before + [c], Scrolls(Position(g), |before| + 1))
  {
  }

  function AtLeastZero(n: int): int {
    if n < 0 then 0 else n
  }

  lemma BackspaceStep(g: Grid)
    requires Writable(g) && (OnScreen(g) || Position(g) > 0)
    ensures var r, p := Backspace(g), Position(g);
            && 0 <= p < CELLS && r.top == g.top
            && if p == 0 then r == g else Position(r) == p - 1 && r.cells == g.cells[p - 1 := Cell(' ', 7)]
  {
  }

  lemma PositionBounds(g: Grid)
    requires Writable(g)
    ensures 0 <= Position(g) < CELLS
  {
  }

  lemma {:induction false} BackspacesErase(g: Grid, k: nat)
    requires ErasableTimes(g, k)
    ensures var r, p := BackspaceTimes(g, k), Position(g);
            var q := AtLeastZero(p - k);
            && Position(r) == q && r.top == g.top
            && forall i :: 0 <= i < CELLS ==> r.cells[i] == if q <= i < p then BLANK else g.cells[i]
  {
    hide Backspace, Position;
    PositionBounds(g);
    if k != 0 {
      BackspacesErase(g, k - 1);
      BackspaceStep(BackspaceTimes(g, k - 1));
    }
  }

  /** Erasing as much as was written blanks exactly what was written, wherever that now is, and leaves
      everything else, scrolled; the cursor is back where it began in the document exactly when that
      row is still on the screen, and otherwise at the top left. */
  lemma EraseUndoesEcho(g: Grid, text: string)
    requires OnScreen(g) && Printable(text)
    ensures var r, p, s := BackspaceTimes(WriteAll(g, text), |text|), Position(g), Scrolls(Position(g), |text|);
            && Position(r) == AtLeastZero(p - COLS * s)
            && (Position(r) == p - COLS * s <==> g.y >= s)
            && forall i :: 0 <= i < CELLS ==> r.cells[i] == ErasedCell(g, |text|, s, i)
  {
    hide WriteAll, BackspaceTimes, Scrolls;
    var h, s := WriteAll(g, text), Scrolls(Position(g), |text|);
    EchoOverwrites(g, text);
    BackspacesErase(h, |text|);
    ErasedCells(g, h, BackspaceTimes(h, |text|), text, s);
  }

  lemma ErasedCells(g: Grid, h: Grid, r: Grid, text: string, s: nat)
    requires OnScreen(g) && OnScreen(h) && OnScreen(r) && Overwritten(g, h, text, s)
    requires var q := AtLeastZero(Position(h) - |text|);
             && Position(r) == q
             && forall i :: 0 <= i < CELLS ==> r.cells[i] == if q <= i < Position(h) then BLANK else h.cells[i]
    ensures var p := Position(g);
            && Position(r) == AtLeastZero(p - COLS * s) && (Position(r) == p - COLS * s <==> g.y >= s)
            && forall i :: 0 <= i < CELLS ==> r.cells[i] == ErasedCell(g, |text|, s, i)
  {
  }

  /** The screen without what was written: blank where it was, and otherwise as before. */
  function ErasedCell(g: Grid, n: nat, s: nat, i: int): Cell
    requires |g.cells| == CELLS
  {
    var j, p := i + COLS * s, Position(g);
    if 0 <= j < CELLS && !(p <= j < p + n) then g.cells[j] else BLANK
  }
}
