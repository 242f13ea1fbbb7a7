/** The text screen: 25 rows of 80 cells and a cursor, with scrolling. */
module Screen {

  const COLS: nat := 80
  const ROWS: nat := 25
  const CELLS: nat := COLS * ROWS
  const ATTRIB: int := 7

  /** The two bytes of a cell, which are always written together. */
  datatype Cell = Cell(c: char, attrib: int)

  const BLANK: Cell := Cell(' ', ATTRIB)

  /** The cells, the cursor, and how many rows have left the screen at the top since it was cleared: the
      program does not count them, but they tell where in the whole text the screen is. */
  datatype Grid = Grid(cells: seq<Cell>, x: int, y: int, top: nat)

  ghost predicate OnScreen(g: Grid) {
    |g.cells| == CELLS && 0 <= g.x < COLS && 0 <= g.y < ROWS
  }

  /** Cells counted from the top left. */
  function Position(g: Grid): int {
    g.y * COLS + g.x
  }

  /** Cells counted from the top left of the whole text. */
  function Place(g: Grid): int {
    Position(g) + COLS * g.top
  }

  /** Where the cursor can be while a line is edited: moving back over the start of a row leaves the
      row number and makes the column negative. */
  ghost predicate Writable(g: Grid) {
    |g.cells| == CELLS && 0 <= g.y < ROWS && g.x < COLS && 0 <= Position(g)
  }

  /** There is a cell before the cursor, or the cursor is at the top left and stays there. */
  ghost predicate Erasable(g: Grid) {
    Writable(g) && (Position(g) > 0 || g.y == 0)
  }

  /** Division as the processor does it, towards zero. */
  function Quotient(a: int, b: nat): int
    requires 0 < b
  {
    if a >= 0 then a / b else -(-a / b)
  }

  function Remainder(a: int, b: nat): int
    requires 0 < b
  {
    if a >= 0 then a % b else -(-a % b)
  }

  // ---------- The operations on values ----------

  function Scrolled(cells: seq<Cell>): (r: seq<Cell>)
    requires |cells| == CELLS
    ensures |r| == CELLS && forall i :: 0 <= i < CELLS ==> r[i] == if i + COLS < CELLS then cells[i + COLS] else BLANK
  {
    seq(CELLS, i requires 0 <= i < CELLS => if i + COLS < CELLS then cells[i + COLS] else BLANK)
  }

  function NextLine(g: Grid): (r: Grid)
    requires |g.cells| == CELLS
    ensures |r.cells| == CELLS
  {
    if g.y >= ROWS - 1 then Grid(Scrolled(g.cells), 0, g.y, g.top + 1) else Grid(g.cells, 0, g.y + 1, g.top)
  }

  function Putc(g: Grid, c: char): (r: Grid)
    requires Writable(g)
    ensures |r.cells| == CELLS
  {
    if c == '\n' || c == '\r' then Grid(g.cells, 0, g.y + 1, g.top)
    else
      var x := Remainder(g.x + 1, COLS);
      Grid(g.cells[Position(g) := Cell(c, ATTRIB)], x, Remainder(g.y + Quotient(x, COLS), ROWS), g.top)
  }

  function WriteChar(g: Grid, c: char): (r: Grid)
    requires Writable(g)
    ensures |r.cells| == CELLS
  {
    var put := if c == '\n' then g else Putc(g, c);
    if g.x == COLS - 1 || c == '\n' then NextLine(put) else put
  }

  /** A carriage return goes down without scrolling, and so off the screen from its last row; nothing
      else does. */
  lemma StaysOnScreen(g: Grid, c: char)
    requires OnScreen(g)
    ensures OnScreen(WriteChar(g, c)) <==> c != '\r' || g.y < ROWS - 1
  {
  }

  lemma StaysWritable(g: Grid, c: char)
    requires Writable(g) && c != '\r'
    ensures Writable(WriteChar(g, c)) && (OnScreen(g) ==> OnScreen(WriteChar(g, c)))
  {
  }

  function WriteAll(g: Grid, text: string): (r: Grid)
    requires Writable(g) && '\r' !in text
    ensures Writable(r) && (OnScreen(g) ==> OnScreen(r))
  {
    if text == [] then g
    else
      var before := WriteAll(g, text[..|text| - 1]);
      StaysWritable(before, text[|text| - 1]);
      WriteChar(before, text[|text| - 1])
  }

  lemma WriteNext(g: Grid, text: string, c: char)
    requires Writable(g) && '\r' !in text && c != '\r'
    ensures WriteAll(g, text + [c]) == WriteChar(WriteAll(g, text), c)
  {
    assert (text + [c])[..|text|] == text;
  }

  lemma {:induction false} WriteInPieces(g: Grid, a: string, b: string)
    requires Writable(g) && '\r' !in a && '\r' !in b
    ensures WriteAll(WriteAll(g, a), b) == WriteAll(g, a + b)
  {
    hide WriteChar;
    if b == [] {
      assert a + b == a;
    } else {
      var rest, c := b[..|b| - 1], b[|b| - 1];
      assert a + b == (a + rest) + [c];
      WriteInPieces(g, a, rest);
      WriteNext(g, a + rest, c);
    }
  }

  function Backspace(g: Grid): (r: Grid)
    requires Erasable(g)
    ensures Writable(r) && (OnScreen(g) ==> OnScreen(r))
  {
    if g.x == 0 && g.y == 0 then g
    else if g.x != 0 then Grid(g.cells[Position(g) - 1 := BLANK], g.x - 1, g.y, g.top)
    else Grid(g.cells[Position(g) - 1 := BLANK], COLS - 1, g.y - 1, g.top)
  }

  /** There is room to erase `k` cells, or the cursor stops at the top left. */
  ghost predicate ErasableTimes(g: Grid, k: nat) {
    Writable(g) && (OnScreen(g) || k <= Position(g))
  }

  function BackspaceTimes(g: Grid, k: nat): (r: Grid)
    requires ErasableTimes(g, k)
    ensures Writable(r) && (OnScreen(g) ==> OnScreen(r)) && (k <= Position(g) ==> Position(r) == Position(g) - k)
  {
    if k == 0 then g else Backspace(BackspaceTimes(g, k - 1))
  }

  function BlankCells(): (r: seq<Cell>)
    ensures |r| == CELLS && forall i :: 0 <= i < CELLS ==> r[i] == BLANK
  {
    seq(CELLS, _ => BLANK)
  }

  function ClearedScreen(): Grid {
    Grid(BlankCells(), 0, 0, 0)
  }

  // ---------- What is in the cells ----------

  /** A cleared screen has a space with attribute 7 in each of its 2000 cells, and the cursor at the top left. */
  lemma ClearedCells()
    ensures var g := ClearedScreen();
            |g.cells| == 2000 && g.x == g.y == g.top == 0 && forall i :: 0 <= i < 2000 ==> g.cells[i] == Cell(' ', 7)
  {
  }

  /** A character is stored with attribute 7 in the cell at the cursor, and no other cell changes; then the
      cursor is one column further, or, behind the last column, at the start of the next row. A carriage
      return goes down a row and stores nothing. */
  lemma CharacterStored(g: Grid, c: char)
    requires OnScreen(g) && c != '\n'
    ensures c != '\r' ==> Putc(g, c).cells == g.cells[80 * g.y + g.x := Cell(c, 7)]
    ensures c != '\r' && g.x < 79 ==> WriteChar(g, c) == Putc(g, c) && Putc(g, c).x == g.x + 1 && Putc(g, c).y == g.y
    ensures c != '\r' && g.x == 79 && g.y < 24 ==> WriteChar(g, c) == Grid(Putc(g, c).cells, 0, g.y + 1, g.top)
    ensures c == '\r' && g.x < 79 ==> WriteChar(g, c) == Grid(g.cells, 0, g.y + 1, g.top)
  {
  }

  /** Behind the last row every row moves up by one, and a row of blank cells comes in. */
  lemma RowsMoveUp(g: Grid, i: nat)
    requires OnScreen(g) && g.y == 24 && i < 2000
    ensures NextLine(g).cells[i] == if i < 1920 then g.cells[i + 80] else Cell(' ', 7)
    ensures NextLine(g).x == 0 && NextLine(g).y == 24
  {
  }

  // ---------- The driver ----------

  class Display {
    const cells: array<Cell>
    var screenX: int
    var screenY: int
    ghost var top: nat

    ghost function View(): Grid
      reads this, cells
    {
      Grid(cells[..], screenX, screenY, top)
    }

    constructor ()
      ensures fresh(cells) && View() == ClearedScreen()
    {
      cells := new Cell[CELLS](_ => BLANK);
      screenX, screenY := 0, 0;
      top := 0;
    }

    method Clear()
      requires cells.Length == CELLS
      modifies cells
      ensures cells[..] == BlankCells() && forall i :: 0 <= i < 2000 ==> cells[i] == Cell(' ', 7)
    {
      for i := 0 to CELLS
        invariant forall k :: 0 <= k < i ==> cells[k] == BLANK
      {
        cells[i] := BLANK;
      }
    }

    method TerminalClear()
      requires cells.Length == CELLS
      modifies this, cells
      ensures View() == ClearedScreen()
    {
      Clear();
      screenX := 0;
      screenY := 0;
      top := 0;
    }

    /** Copies every row over the one above it, in place, and blanks the last. */
    method Scroll()
      requires cells.Length == CELLS
      modifies this`screenX, this`top, cells
      ensures screenX == 0 && top == old(top) + 1 && cells[..] == Scrolled(old(cells[..]))
    {
      ghost var was := cells[..];
      for i := 0 to CELLS - COLS
        invariant top == old(top)
        invariant forall k :: 0 <= k < CELLS ==> cells[k] == was[if k < i then k + COLS else k]
      {
        cells[i] := cells[i + COLS];
      }
      for i := CELLS - COLS to CELLS
        invariant top == old(top) && forall k :: 0 <= k < CELLS - COLS ==> cells[k] == was[k + COLS]
        invariant forall k :: CELLS - COLS <= k < i ==> cells[k] == BLANK
      {
        cells[i] := BLANK;
      }
      screenX := 0;
      top := top + 1;
    }

    method MoveToNextLine()
      requires cells.Length == CELLS
      modifies this, cells
      ensures View() == NextLine(old(View()))
    {
      if screenY >= ROWS - 1 {
        Scroll();
      } else {
        screenX := 0;
        screenY := screenY + 1;
      }
    }

    method PutCharacter(c: char)
      requires Writable(View())
      modifies this, cells
      ensures View() == Putc(old(View()), c)
    {
      if c == '\n' || c == '\r' {
        screenY := screenY + 1;
        screenX := 0;
      } else {
        cells[COLS * screenY + screenX] := Cell(c, ATTRIB);
        screenX := screenX + 1;
        screenX := Remainder(screenX, COLS);
        screenY := Remainder(screenY + Quotient(screenX, COLS), ROWS);
      }
    }

    /** Writes `nbytes` characters of the buffer, starting at `at`. */
    method TerminalWrite(buf: array<char>, at: nat, nbytes: int) returns (ret: int)
      requires Writable(View())
      requires nbytes >= 1 ==> at + nbytes <= buf.Length && '\r' !in buf[at..at + nbytes]
      modifies this, cells
      ensures ret == if nbytes < 1 then -1 else nbytes
      ensures View() == if nbytes < 1 then old(View()) else WriteAll(old(View()), buf[at..at + nbytes])
    {
      if nbytes < 1 {
        return -1;
      }
      ghost var g := View();
      var i := 0;
      while i < nbytes
        invariant 0 <= i <= nbytes && Writable(View())
        invariant View() == WriteAll(g, buf[at..at + i])
      {
        var callNextLine := screenX == COLS - 1;
        var c := buf[at + i];
        assert buf[at..at + i + 1] == buf[at..at + i] + [c];
        WriteNext(g, buf[at..at + i], c);
        if c == '\n' {
          callNextLine := true;
        } else {
          PutCharacter(c);
        }
        if callNextLine {
          MoveToNextLine();
        }
        i := i + 1;
      }
      return i;
    }

    method Erase()
      requires Erasable(View())
      modifies this, cells
      ensures View() == Backspace(old(View()))
    {
      if screenX == 0 && screenY == 0 {
      } else if screenX != 0 {
        cells[screenY * COLS + screenX - 1] := BLANK;
        screenX := screenX - 1;
      } else {
        cells[screenY * COLS + screenX - 1] := BLANK;
        screenY := screenY - 1;
        screenX := COLS - 1;
      }
    }

    method MoveLeft(amount: int)
      modifies this`screenX
      ensures screenX == old(screenX) - amount
    {
      screenX := screenX - amount;
    }

    method MoveRight(amount: int)
      modifies this`screenX
      ensures screenX == old(screenX) + amount
    {
      screenX := screenX + amount;
    }
  }
}
