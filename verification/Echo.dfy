/** What editing a line does to the screen: every key redraws only the part of the line that changed. The
    line goes on standing on the screen exactly as long as the cursor is not too far left of its row. */
module Echo {
  import opened Screen
  import opened ScreenLayout
  import opened LineEditing

  function Moved(g: Grid, amount: int): Grid {
    g.(x := g.x + amount)
  }

  function Tail(s: Session): string
    requires s.cursor <= |s.text|
  {
    s.text[s.cursor..]
  }

  /** Where the cursor goes before the line is taken off the screen. */
  function AtLineEnd(g: Grid, s: Session): Grid {
    Moved(g, |s.text| - s.cursor)
  }

  /** There is room for the line on the screen in front of where it ends. */
  ghost predicate Anchored(g: Grid, s: Session) {
    && s.cursor <= |s.text| && |g.cells| == CELLS && 0 <= g.y < ROWS
    && AtLineEnd(g, s).x < COLS && |s.text| <= Position(AtLineEnd(g, s))
  }

  // ---------- The echo of a key ----------

  /** The new character and what follows it. */
  function InsertEchoed(g: Grid, s: Session, c: char): Grid
    requires Proper(s) && Anchored(g, s) && c != '\r'
  {
    if |s.text| == MAX_CHARACTERS || c == '\0' then g
    else Moved(WriteAll(g, [c] + Tail(s)), -|Tail(s)|)
  }

  /** What follows the erased character, and the character 0 over the cell at its end. */
  function EraseEchoed(g: Grid, s: Session): Grid
    requires Proper(s) && Anchored(g, s)
  {
    if s.cursor == 0 then g
    else Moved(WriteAll(Backspace(g), Tail(s) + ['\0']), -|Tail(s)| - 1)
  }

  /** The line `s` is taken off the screen and `text` written in its place. */
  function Redrawn(g: Grid, s: Session, text: string): Grid
    requires ErasableTimes(AtLineEnd(g, s), |s.text|) && '\r' !in text
  {
    WriteAll(BackspaceTimes(AtLineEnd(g, s), |s.text|), text)
  }

  lemma CanRedraw(g: Grid, s: Session)
    requires Anchored(g, s)
    ensures ErasableTimes(AtLineEnd(g, s), |s.text|)
  {
  }

  /** An Enter that a program waits for is not echoed here, but by its read. */
  function Echoed(g: Grid, s: Session, k: Key, reading: bool): Grid
    requires Proper(s) && KeyPressable(k) && Anchored(g, s)
  {
    StaysProper(s, k);
    match k
    case Insert(c) => InsertEchoed(g, s, c)
    case Erase => EraseEchoed(g, s)
    case Left => if s.cursor == 0 then g else Moved(g, -1)
    case Right => if s.cursor == |s.text| then g else Moved(g, 1)
    case Up => if Upped(s).browse == s.browse then g else Redrawn(g, s, Upped(s).text)
    case Down => if Downed(s).browse == s.browse then g else Redrawn(g, s, Downed(s).text)
    case Enter => if reading then g else NextLine(g)
    case Clear => ClearedScreen()
  }

  /** The cursor goes with the cursor keys, one column for each place it moves in the line, and no cell changes. */
  lemma CursorEchoes(g: Grid, s: Session, k: Key, reading: bool)
    requires Proper(s) && Anchored(g, s) && (k == Left || k == Right)
    ensures Echoed(g, s, k, reading) == g.(x := g.x + Pressed(s, k).cursor - s.cursor)
  {
  }

  /** An Enter that a program waits for leaves the screen to that program; any other takes the cursor to the
      start of the next row, and leaves what is on the screen, scrolled if it was on the last row. Clearing
      leaves 2000 blank cells. */
  lemma FinishingEchoes(g: Grid, s: Session, reading: bool)
    requires Proper(s) && Anchored(g, s)
    ensures Echoed(g, s, Enter, true) == g
    ensures var r := Echoed(g, s, Enter, false);
            && r.x == 0 && r.y + r.top == g.y + g.top + 1 && r.y == (if g.y == 24 then 24 else g.y + 1)
            && |r.cells| == 2000
            && forall i :: 0 <= i < 2000 ==>
                 r.cells[i] == if g.y < 24 then g.cells[i] else if i < 1920 then g.cells[i + 80] else Cell(' ', 7)
    ensures var r := Echoed(g, s, Clear, reading);
            r.x == r.y == r.top == 0 && |r.cells| == 2000 && forall i :: 0 <= i < 2000 ==> r.cells[i] == Cell(' ', 7)
  {
  }

  // ---------- The echo never leaves the screen ----------

  lemma NothingWritten(g: Grid)
    requires Writable(g)
    ensures WriteAll(g, "") == g
  {
  }

  /** Writing never goes back further than to the last row. */
  lemma {:induction false} WritesForward(g: Grid, text: string)
    requires Writable(g) && '\r' !in text
    ensures Writable(WriteAll(g, text))
    ensures Position(WriteAll(g, text)) >= Position(g) + |text| || Position(WriteAll(g, text)) >= CELLS - COLS
  {
    hide WriteChar, Position;
    if text != [] {
      var before, c := text[..|text| - 1], text[|text| - 1];
      assert text == before + [c];
      WritesForward(g, before);
      WriteNext(g, before, c);
      StepsForward(WriteAll(g, before), c);
    }
  }

  lemma StepsForward(g: Grid, c: char)
    requires Writable(g) && c != '\r'
    ensures Writable(WriteChar(g, c))
    ensures Position(WriteChar(g, c)) > Position(g) || Position(WriteChar(g, c)) >= CELLS - COLS
  {
  }

  lemma InsertAnchored(g: Grid, s: Session, c: char)
    requires Proper(s) && Anchored(g, s) && KeyPressable(Insert(c))
    ensures Anchored(InsertEchoed(g, s, c), Inserted(s, c))
  {
    hide WriteAll;
    if |s.text| < MAX_CHARACTERS && c != '\0' {
      WritesForward(g, [c] + Tail(s));
    }
  }

  lemma EraseAnchored(g: Grid, s: Session)
    requires Proper(s) && Anchored(g, s)
    ensures Anchored(EraseEchoed(g, s), Erased(s))
  {
    hide WriteAll;
    if s.cursor > 0 {
      WritesForward(Backspace(g), Tail(s) + ['\0']);
    }
  }

  lemma RedrawAnchored(g: Grid, s: Session, t: Session)
    requires Anchored(g, s) && Typed(t.text) && t.cursor == |t.text|
    ensures ErasableTimes(AtLineEnd(g, s), |s.text|) && Anchored(Redrawn(g, s, t.text), t)
  {
    hide WriteAll, BackspaceTimes;
    WritesForward(BackspaceTimes(AtLineEnd(g, s), |s.text|), t.text);
  }

  /** Whatever the key, the line and the prompt: what the echo writes is on the screen, and there is room
      for the echo of the next key. */
  lemma EchoAnchored(g: Grid, s: Session, k: Key, reading: bool)
    requires Proper(s) && KeyPressable(k) && Anchored(g, s)
    ensures Anchored(Echoed(g, s, k, reading), Pressed(s, k))
  {
    hide WriteAll, BackspaceTimes, ClearedScreen;
    StaysProper(s, k);
    match k
    case Insert(c) => InsertAnchored(g, s, c);
    case Erase => EraseAnchored(g, s);
    case Left =>
    case Right =>
    case Up => BrowseAnchored(g, s, Upped(s));
    case Down => BrowseAnchored(g, s, Downed(s));
    case Enter => assert Pressed(s, k).text == "";
    case Clear => CleanScreen();
  }

  lemma BrowseAnchored(g: Grid, s: Session, t: Session)
    requires Proper(s) && Proper(t) && Anchored(g, s) && (t == Upped(s) || t == Downed(s))
    ensures ErasableTimes(AtLineEnd(g, s), |s.text|)
    ensures if t.browse == s.browse then t == s else Anchored(Redrawn(g, s, t.text), t)
  {
    hide Redrawn, Anchored;
    CanRedraw(g, s);
    if t.browse != s.browse {
      RedrawAnchored(g, s, t);
    }
  }

  lemma CleanScreen()
    ensures OnScreen(ClearedScreen()) && Place(ClearedScreen()) == Position(ClearedScreen()) == 0
  {
  }

  // ---------- The line stands on the screen ----------

  function Typeset(text: string): (cells: seq<Cell>)
    ensures |cells| == |text| && forall i :: 0 <= i < |text| ==> cells[i] == Cell(text[i], ATTRIB)
  {
    seq(|text|, i requires 0 <= i < |text| => Cell(text[i], ATTRIB))
  }

  /** The cells from place `at` of the whole text up to the cursor, as far as they have not left the
      screen. */
  ghost predicate Stands(g: Grid, at: int, cells: seq<Cell>)
    requires |g.cells| == CELLS
  {
    && Place(g) == at + |cells|
    && forall i :: 0 <= i < CELLS && at <= i + COLS * g.top < at + |cells| ==>
        g.cells[i] == cells[i + COLS * g.top - at]
  }

  /** The line starts at place `start`, behind what was there before it, and the cursor is in it where it
      is in the text. */
  ghost predicate Mirrors(g: Grid, s: Session, before: seq<Cell>, start: int) {
    Anchored(g, s) && Stands(AtLineEnd(g, s), start - |before|, before + Typeset(s.text))
  }

  /** With the cursor further left, fewer cells stand before it. */
  lemma StandsShorter(g: Grid, at: int, a: seq<Cell>, b: seq<Cell>)
    requires |g.cells| == CELLS && Stands(g, at, a + b)
    ensures Stands(Moved(g, -|b|), at, a)
  {
  }

  lemma StandsBackspace(g: Grid, at: int, cells: seq<Cell>)
    requires Writable(g) && Position(g) > 0 && cells != [] && Stands(g, at, cells)
    ensures Stands(Backspace(g), at, cells[..|cells| - 1])
  {
  }

  lemma {:induction false} StandsBackspaceTimes(g: Grid, at: int, cells: seq<Cell>, k: nat)
    requires Writable(g) && k <= Position(g) && k <= |cells| && Stands(g, at, cells)
    ensures Stands(BackspaceTimes(g, k), at, cells[..|cells| - k])
  {
    hide Stands, Backspace;
    if k == 0 {
      assert cells[..|cells|] == cells;
    } else {
      StandsBackspaceTimes(g, at, cells, k - 1);
      var rest := cells[..|cells| - k + 1];
      assert rest[..|rest| - 1] == cells[..|cells| - k];
      StandsBackspace(BackspaceTimes(g, k - 1), at, rest);
    }
  }

  /** Writing on from a column that is not too far left makes the longer text stand. */
  lemma StandsWrite(g: Grid, at: int, cells: seq<Cell>, text: string)
    requires WritesOn(g) && Printable(text) && Stands(g, at, cells)
    ensures Stands(WriteAll(g, text), at, cells + Typeset(text))
  {
    hide WriteAll;
    EchoOverwrites(g, text);
    StandsOverwritten(g, WriteAll(g, text), at, cells, text, Scrolls(Position(g), |text|));
  }

  lemma StandsOverwritten(g: Grid, r: Grid, at: int, cells: seq<Cell>, text: string, s: nat)
    requires WritesOn(g) && WritesOn(r) && Stands(g, at, cells) && Overwritten(g, r, text, s)
    ensures Stands(r, at, cells + Typeset(text))
  {
  }

  lemma TypesetParts(a: string, b: string)
    ensures Typeset(a + b) == Typeset(a) + Typeset(b)
  {
  }
}
