/** When the screen goes on mirroring the line that is edited: a condition on the column of the cursor for
    each key, exact for every line, and for whole runs of keys. */
module Mirroring {
  import opened Screen
  import opened ScreenLayout
  import opened LineEditing
  import opened Echo

  // ---------- Every key ----------

  /** Writing starts no more than 80 columns left of the row's start. An erasure writes from one column
      further left; and a line that is taken off the screen is written anew from its start, on its own row
      unless its end was left of that row already. */
  predicate EchoesRight(g: Grid, s: Session, k: Key)
    requires Proper(s)
  {
    match k
    case Insert(c) => |s.text| == MAX_CHARACTERS || c == '\0' || g.x + COLS >= 0
    case Erase => s.cursor == 0 || g.x + COLS >= 1
    case Left => true
    case Right => true
    case Up => Upped(s).browse == s.browse || RedrawsRight(g, s, Upped(s).text)
    case Down => Downed(s).browse == s.browse || RedrawsRight(g, s, Downed(s).text)
    case Enter => true
    case Clear => true
  }

  predicate RedrawsRight(g: Grid, s: Session, text: string) {
    var end := AtLineEnd(g, s).x;
    text == "" || end >= 0 || end - |s.text| + COLS >= 0
  }

  /** Writing makes the text stand if and only if it does not leave cells out. */
  lemma WritesExactly(g: Grid, at: int, cells: seq<Cell>, text: string)
    requires Writable(g) && Printable(text) && Stands(g, at, cells)
    ensures Stands(WriteAll(g, text), at, cells + Typeset(text)) <==> text == "" || WritesOn(g)
  {
    hide WriteAll;
    if text == "" {
      NothingWritten(g);
      assert cells + Typeset(text) == cells;
    } else if WritesOn(g) {
      StandsWrite(g, at, cells, text);
    } else {
      SkipsOnce(g, text);
    }
  }

  /** The line in two parts, at the cursor. */
  lemma SplitAtCursor(g: Grid, s: Session, before: seq<Cell>, start: int)
    requires Mirrors(g, s, before, start)
    ensures Stands(g, start - |before|, before + Typeset(s.text[..s.cursor]))
  {
    hide Stands;
    var head, tail := s.text[..s.cursor], Tail(s);
    assert s.text == head + tail;
    TypesetParts(head, tail);
    assert before + Typeset(s.text) == (before + Typeset(head)) + Typeset(tail);
    StandsShorter(AtLineEnd(g, s), start - |before|, before + Typeset(head), Typeset(tail));
    assert Moved(AtLineEnd(g, s), -|Typeset(tail)|) == g;
  }

  lemma InsertExactly(g: Grid, s: Session, before: seq<Cell>, start: int, c: char)
    requires Mirrors(g, s, before, start) && Proper(s) && KeyPressable(Insert(c))
    ensures Mirrors(InsertEchoed(g, s, c), Inserted(s, c), before, start) <==> EchoesRight(g, s, Insert(c))
  {
    hide Stands, WriteAll;
    SplitAtCursor(g, s, before, start);
    InsertAnchored(g, s, c);
    if |s.text| < MAX_CHARACTERS && c != '\0' {
      var head, tail, at := s.text[..s.cursor], Tail(s), start - |before|;
      WritesExactly(g, at, before + Typeset(head), [c] + tail);
      assert Inserted(s, c).text == head + ([c] + tail);
      TypesetParts(head, [c] + tail);
      assert (before + Typeset(head)) + Typeset([c] + tail) == before + Typeset(Inserted(s, c).text);
      assert AtLineEnd(InsertEchoed(g, s, c), Inserted(s, c)) == WriteAll(g, [c] + tail);
    }
  }

  lemma EraseExactly(g: Grid, s: Session, before: seq<Cell>, start: int)
    requires Mirrors(g, s, before, start) && Proper(s)
    ensures Mirrors(EraseEchoed(g, s), Erased(s), before, start) <==> EchoesRight(g, s, Erase)
  {
    hide Stands, WriteAll;
    SplitAtCursor(g, s, before, start);
    EraseAnchored(g, s);
    if s.cursor > 0 {
      var head, end, at := s.text[..s.cursor - 1], Tail(s) + ['\0'], start - |before|;
      var cells, b := before + Typeset(s.text[..s.cursor]), Backspace(g);
      StandsBackspace(g, at, cells);
      assert cells[..|cells| - 1] == before + Typeset(head);
      var whole := before + Typeset(Erased(s).text);
      ErasedParts(s, before, head);
      assert AtLineEnd(EraseEchoed(g, s), Erased(s)) == Moved(WriteAll(b, end), -1);
      if WritesOn(b) {
        StandsWrite(b, at, before + Typeset(head), end);
        StandsShorter(WriteAll(b, end), at, whole, Typeset(['\0']));
      } else {
        SkipsOnce(b, end);
        StandsAtPlace(b, at, before + Typeset(head));
        NotThere(Moved(WriteAll(b, end), -1), at, whole);
      }
    }
  }

  lemma ErasedParts(s: Session, before: seq<Cell>, head: string)
    requires Proper(s) && s.cursor > 0 && head == s.text[..s.cursor - 1]
    ensures Erased(s).text == head + Tail(s)
    ensures (before + Typeset(head)) + Typeset(Tail(s) + ['\0']) == (before + Typeset(Erased(s).text)) + Typeset(['\0'])
  {
    TypesetParts(head, Tail(s));
    TypesetParts(Tail(s), ['\0']);
  }

  lemma StandsAtPlace(g: Grid, at: int, cells: seq<Cell>)
    requires |g.cells| == CELLS && Stands(g, at, cells)
    ensures Place(g) == at + |cells|
  {
  }

  lemma NotThere(g: Grid, at: int, cells: seq<Cell>)
    requires |g.cells| == CELLS && Place(g) != at + |cells|
    ensures !Stands(g, at, cells)
  {
  }

  /** Erasing from a row's column on stays on a row; further left it just goes on to the left. */
  lemma {:induction false} BackspaceColumn(g: Grid, k: nat)
    requires Writable(g) && k <= Position(g)
    ensures var x := BackspaceTimes(g, k).x; if g.x >= 0 then 0 <= x < COLS else x == g.x - k
  {
    hide Position;
    if k != 0 {
      BackspaceColumn(g, k - 1);
    }
  }

  lemma RedrawExactly(g: Grid, s: Session, t: Session, before: seq<Cell>, start: int)
    requires Mirrors(g, s, before, start) && Proper(s) && Typed(t.text) && t.cursor == |t.text|
    ensures ErasableTimes(AtLineEnd(g, s), |s.text|)
    ensures Mirrors(Redrawn(g, s, t.text), t, before, start) <==> RedrawsRight(g, s, t.text)
  {
    hide Stands, WriteAll, BackspaceTimes;
    CanRedraw(g, s);
    RedrawAnchored(g, s, t);
    var end, at, cells := AtLineEnd(g, s), start - |before|, before + Typeset(s.text);
    var b := BackspaceTimes(end, |s.text|);
    StandsBackspaceTimes(end, at, cells, |s.text|);
    assert cells[..|cells| - |s.text|] == before;
    BackspaceColumn(end, |s.text|);
    WritesExactly(b, at, before, t.text);
    assert AtLineEnd(Redrawn(g, s, t.text), t) == WriteAll(b, t.text);
  }

  // ---------- Where the next line starts ----------

  predicate BeginsLine(k: Key) {
    k == Enter || k == Clear
  }

  function BeforeNext(before: seq<Cell>, k: Key): seq<Cell> {
    if BeginsLine(k) then [] else before
  }

  /** An Enter and a clear begin a new line where they leave the cursor. */
  function StartNext(start: int, k: Key, after: Grid): int {
    if BeginsLine(k) then Place(after) else start
  }

  /** For every key: if the screen mirrors the line, it does so after the echo exactly when the cursor is
      not too far left. */
  lemma KeyExactly(g: Grid, s: Session, before: seq<Cell>, start: int, k: Key, reading: bool)
    requires Mirrors(g, s, before, start) && Proper(s) && KeyPressable(k)
    ensures var r := Echoed(g, s, k, reading);
            Mirrors(r, Pressed(s, k), BeforeNext(before, k), StartNext(start, k, r)) <==> EchoesRight(g, s, k)
  {
    hide Stands, InsertEchoed, EraseEchoed, Redrawn;
    StaysProper(s, k);
    match k
    case Insert(c) => InsertExactly(g, s, before, start, c);
    case Erase => EraseExactly(g, s, before, start);
    case Left => CursorMirrors(g, s, before, start, k);
    case Right => CursorMirrors(g, s, before, start, k);
    case Up => BrowseExactly(g, s, Upped(s), before, start);
    case Down => BrowseExactly(g, s, Downed(s), before, start);
    case Enter => LineBegins(g, s, k, reading);
    case Clear => LineBegins(g, s, k, reading);
  }

  lemma CursorMirrors(g: Grid, s: Session, before: seq<Cell>, start: int, k: Key)
    requires Mirrors(g, s, before, start) && Proper(s) && (k == Left || k == Right)
    ensures Mirrors(Echoed(g, s, k, false), Pressed(s, k), before, start)
  {
    hide Stands;
    assert AtLineEnd(Echoed(g, s, k, false), Pressed(s, k)) == AtLineEnd(g, s);
  }

  lemma BrowseExactly(g: Grid, s: Session, t: Session, before: seq<Cell>, start: int)
    requires Mirrors(g, s, before, start) && Proper(s) && Proper(t) && (t == Upped(s) || t == Downed(s))
    ensures ErasableTimes(AtLineEnd(g, s), |s.text|)
    ensures if t.browse == s.browse then t == s
            else Mirrors(Redrawn(g, s, t.text), t, before, start) <==> RedrawsRight(g, s, t.text)
  {
    hide Mirrors, Redrawn, RedrawsRight;
    MirrorsAnchored(g, s, before, start);
    CanRedraw(g, s);
    if t.browse != s.browse {
      RedrawExactly(g, s, t, before, start);
    }
  }

  lemma MirrorsAnchored(g: Grid, s: Session, before: seq<Cell>, start: int)
    requires Mirrors(g, s, before, start)
    ensures Anchored(g, s)
  {
  }

  /** Whatever was there before, an empty line stands where the cursor is. */
  lemma LineBegins(g: Grid, s: Session, k: Key, reading: bool)
    requires Proper(s) && Anchored(g, s) && BeginsLine(k)
    ensures var r := Echoed(g, s, k, reading); Mirrors(r, Pressed(s, k), [], Place(r))
  {
    EchoAnchored(g, s, k, reading);
    assert Pressed(s, k).text == "" && Pressed(s, k).cursor == 0;
  }

  // ---------- Runs ----------

  /** A key, and whether a program waits for a line when it is pressed. */
  datatype Stroke = Stroke(key: Key, reading: bool)

  /** The screen and the line. */
  datatype Scene = Scene(g: Grid, s: Session)

  ghost predicate Good(z: Scene) {
    Proper(z.s) && Anchored(z.g, z.s)
  }

  ghost predicate Pressable(strokes: seq<Stroke>) {
    forall k :: k in strokes ==> KeyPressable(k.key)
  }

  function Struck(z: Scene, k: Stroke): (r: Scene)
    requires Good(z) && KeyPressable(k.key)
    ensures Good(r)
  {
    StaysProper(z.s, k.key);
    EchoAnchored(z.g, z.s, k.key, k.reading);
    Scene(Echoed(z.g, z.s, k.key, k.reading), Pressed(z.s, k.key))
  }

  function StruckAll(z: Scene, strokes: seq<Stroke>): (r: Scene)
    requires Good(z) && Pressable(strokes)
    ensures Good(r)
    decreases |strokes|
  {
    if strokes == [] then z else StruckAll(Struck(z, strokes[0]), strokes[1..])
  }

  ghost predicate MirrorsScene(z: Scene, before: seq<Cell>, start: int) {
    Mirrors(z.g, z.s, before, start)
  }

  /** The screen mirrors the line now and after every stroke of the run. */
  ghost predicate MirrorsThroughout(z: Scene, before: seq<Cell>, start: int, strokes: seq<Stroke>)
    requires Good(z) && Pressable(strokes)
    decreases |strokes|
  {
    MirrorsScene(z, before, start) &&
    (strokes == [] ||
      (var k, r := strokes[0].key, Struck(z, strokes[0]);
       MirrorsThroughout(r, BeforeNext(before, k), StartNext(start, k, r.g), strokes[1..])))
  }

  /** No stroke of the run finds the cursor too far left. */
  ghost predicate AllRight(z: Scene, strokes: seq<Stroke>)
    requires Good(z) && Pressable(strokes)
    decreases |strokes|
  {
    strokes == [] || (EchoesRight(z.g, z.s, strokes[0].key) && AllRight(Struck(z, strokes[0]), strokes[1..]))
  }

  /** Over every run of keys, for every prompt and every line: the screen mirrors the line all the way if
      and only if no key finds the cursor too far left. */
  lemma {:induction false} RunExactly(z: Scene, before: seq<Cell>, start: int, strokes: seq<Stroke>)
    requires Good(z) && Pressable(strokes) && MirrorsScene(z, before, start)
    ensures MirrorsThroughout(z, before, start, strokes) <==> AllRight(z, strokes)
    decreases |strokes|
  {
    hide MirrorsScene, EchoesRight, BeforeNext, StartNext, Proper, Anchored, Struck, KeyPressable;
    if strokes != [] {
      var k, r := strokes[0].key, Struck(z, strokes[0]);
      StrokeExactly(z, before, start, strokes[0]);
      if EchoesRight(z.g, z.s, k) {
        RunExactly(r, BeforeNext(before, k), StartNext(start, k, r.g), strokes[1..]);
      }
    }
  }

  lemma StrokeExactly(z: Scene, before: seq<Cell>, start: int, k: Stroke)
    requires Good(z) && KeyPressable(k.key) && MirrorsScene(z, before, start)
    ensures var r := Struck(z, k);
            MirrorsScene(r, BeforeNext(before, k.key), StartNext(start, k.key, r.g)) <==> EchoesRight(z.g, z.s, k.key)
  {
    hide EchoesRight;
    KeyExactly(z.g, z.s, before, start, k.key, k.reading);
  }

  // ---------- A prompt ----------

  /** A prompt on a cleared screen, and no line yet. */
  function Prompted(prompt: string): Scene
    requires Printable(prompt)
  {
    CleanScreen();
    Scene(WriteAll(ClearedScreen(), prompt), Session("", 0, [], "", 0))
  }

  lemma PromptStands(prompt: string)
    requires Printable(prompt)
    ensures var z := Prompted(prompt);
            && Good(z) && OnScreen(z.g) && Place(z.g) == |prompt| && MirrorsScene(z, Typeset(prompt), |prompt|)
  {
    hide WriteAll, ClearedScreen;
    CleanScreen();
    var g := ClearedScreen();
    StandsWrite(g, 0, [], prompt);
    assert [] + Typeset(prompt) == Typeset(prompt) == Typeset(prompt) + Typeset("");
    StandsAtPlace(WriteAll(g, prompt), 0, Typeset(prompt));
    assert AtLineEnd(Prompted(prompt).g, Prompted(prompt).s) == WriteAll(g, prompt);
  }

  // ---------- After a short prompt ----------

  /** Rows counted in the whole text. */
  function RowOf(g: Grid): int {
    g.y + g.top
  }

  /** Writing goes down a row only behind its last cell. */
  lemma {:induction false} WritesDown(g: Grid, text: string)
    requires WritesOn(g) && Printable(text)
    ensures WritesOn(WriteAll(g, text)) && Place(WriteAll(g, text)) == Place(g) + |text|
    ensures RowOf(WriteAll(g, text)) <= RowOf(g) || COLS * RowOf(WriteAll(g, text)) <= Place(g) + |text|
  {
    hide WriteChar, Place, RowOf;
    if text != [] {
      var before, c := text[..|text| - 1], text[|text| - 1];
      assert text == before + [c];
      WritesDown(g, before);
      WriteNext(g, before, c);
      StepsDown(WriteAll(g, before), c);
    }
  }

  lemma StepsDown(g: Grid, c: char)
    requires WritesOn(g) && c != '\n' && c != '\r'
    ensures var r := WriteChar(g, c);
            WritesOn(r) && Place(r) == Place(g) + 1 && (RowOf(r) <= RowOf(g) || COLS * RowOf(r) <= Place(r))
  {
  }

  lemma {:induction false} ErasesUp(g: Grid, k: nat)
    requires Writable(g) && k <= Position(g)
    ensures RowOf(BackspaceTimes(g, k)) <= RowOf(g) && Place(BackspaceTimes(g, k)) == Place(g) - k
  {
    hide Position;
    if k != 0 {
      ErasesUp(g, k - 1);
    }
  }

  /** The cursor is at most one row below the start of a line that starts in a column from which `n`
      characters do not need a third row. */
  ghost predicate Near(g: Grid, start: int, n: nat) {
    0 <= start && start % COLS + n < 2 * COLS && COLS * RowOf(g) <= start - start % COLS + COLS
  }

  /** A row is not left upwards before its last cell is written. */
  lemma NearKept(g: Grid, r: Grid, start: int, n: nat, k: nat)
    requires Near(g, start, n) && k <= n
    requires RowOf(r) <= RowOf(g) || COLS * RowOf(r) <= start + k
    ensures Near(r, start, n)
  {
  }

  lemma NearColumn(g: Grid, start: int, n: nat)
    requires Near(g, start, n)
    ensures start - COLS * RowOf(g) + COLS >= 0 && n < 2 * COLS
  {
  }

  /** Then the cursor is never too far left. */
  lemma NearEchoesRight(g: Grid, s: Session, before: seq<Cell>, start: int, n: nat, k: Key)
    requires Mirrors(g, s, before, start) && Proper(s) && KeyPressable(k) && Near(g, start, n)
    ensures EchoesRight(g, s, k)
  {
    hide Upped, Downed, Near, Stands;
    NearColumn(g, start, n);
    StandsAtPlace(AtLineEnd(g, s), start - |before|, before + Typeset(s.text));
  }

  lemma InsertNear(g: Grid, s: Session, c: char, start: int, n: nat)
    requires Proper(s) && Anchored(g, s) && KeyPressable(Insert(c)) && Near(g, start, n) && |Inserted(s, c).text| <= n
    requires Place(AtLineEnd(g, s)) == start + |s.text| && EchoesRight(g, s, Insert(c))
    ensures Near(InsertEchoed(g, s, c), start, n)
  {
    hide WriteAll, Near;
    if |s.text| < MAX_CHARACTERS && c != '\0' {
      WritesDown(g, [c] + Tail(s));
      NearKept(g, InsertEchoed(g, s, c), start, n, |s.text| + 1);
    }
  }

  lemma EraseNear(g: Grid, s: Session, start: int, n: nat)
    requires Proper(s) && Anchored(g, s) && Near(g, start, n) && |s.text| <= n
    requires Place(AtLineEnd(g, s)) == start + |s.text| && EchoesRight(g, s, Erase)
    ensures Near(EraseEchoed(g, s), start, n)
  {
    hide WriteAll, Near;
    if s.cursor > 0 {
      WritesDown(Backspace(g), Tail(s) + ['\0']);
      NearKept(g, EraseEchoed(g, s), start, n, |s.text|);
    }
  }

  lemma LineNear(g: Grid, s: Session, n: nat)
    requires Anchored(g, s) && n < 2 * COLS
    ensures Near(NextLine(g), Place(NextLine(g)), n) && Near(ClearedScreen(), Place(ClearedScreen()), n)
  {
    hide Scrolled, BlankCells;
  }

  lemma NearStays(g: Grid, s: Session, before: seq<Cell>, start: int, n: nat, k: Key, reading: bool)
    requires Mirrors(g, s, before, start) && Proper(s) && KeyPressable(k) && Near(g, start, n)
    requires (k == Enter ==> !reading) && |s.text| <= n && |Pressed(s, k).text| <= n
    ensures var r := Echoed(g, s, k, reading); Near(r, StartNext(start, k, r), n)
  {
    hide WriteAll, BackspaceTimes, ClearedScreen, InsertEchoed, EraseEchoed, Redrawn, Upped, Downed, Near;
    hide RedrawsRight, Stands;
    NearColumn(g, start, n);
    NearEchoesRight(g, s, before, start, n, k);
    StandsAtPlace(AtLineEnd(g, s), start - |before|, before + Typeset(s.text));
    StaysProper(s, k);
    match k
    case Insert(c) => InsertNear(g, s, c, start, n);
    case Erase => EraseNear(g, s, start, n);
    case Left => NearKept(g, Echoed(g, s, k, reading), start, n, 0);
    case Right => NearKept(g, Echoed(g, s, k, reading), start, n, 0);
    case Up => BrowseNear(g, s, Upped(s), start, n);
    case Down => BrowseNear(g, s, Downed(s), start, n);
    case Enter => LineNear(g, s, n);
    case Clear => LineNear(g, s, n);
  }

  lemma BrowseNear(g: Grid, s: Session, t: Session, start: int, n: nat)
    requires Proper(s) && Proper(t) && Anchored(g, s) && Near(g, start, n) && (t == Upped(s) || t == Downed(s))
    requires Place(AtLineEnd(g, s)) == start + |s.text| && |t.text| <= n
    requires t.browse != s.browse ==> RedrawsRight(g, s, t.text)
    ensures ErasableTimes(AtLineEnd(g, s), |s.text|)
    ensures t.browse != s.browse ==> Near(Redrawn(g, s, t.text), start, n)
  {
    hide RedrawsRight, Redrawn, Upped, Downed, Near, Anchored;
    CanRedraw(g, s);
    if t.browse != s.browse {
      RedrawNear(g, s, t.text, start, n);
    }
  }

  lemma RedrawNear(g: Grid, s: Session, text: string, start: int, n: nat)
    requires Anchored(g, s) && Near(g, start, n) && Typed(text) && |text| <= n
    requires Place(AtLineEnd(g, s)) == start + |s.text| && RedrawsRight(g, s, text)
    ensures ErasableTimes(AtLineEnd(g, s), |s.text|) && Near(Redrawn(g, s, text), start, n)
  {
    hide WriteAll, BackspaceTimes, Near;
    CanRedraw(g, s);
    var end := AtLineEnd(g, s);
    var b := BackspaceTimes(end, |s.text|);
    ErasesUp(end, |s.text|);
    BackspaceColumn(end, |s.text|);
    if text == "" {
      NothingWritten(b);
    } else {
      WritesDown(b, text);
    }
    NearKept(g, Redrawn(g, s, text), start, n, |text|);
  }

  /** No line of the run is longer than `n`. */
  ghost predicate Within(z: Scene, strokes: seq<Stroke>, n: nat)
    requires Good(z) && Pressable(strokes)
    decreases |strokes|
  {
    |z.s.text| <= n && (strokes == [] || Within(Struck(z, strokes[0]), strokes[1..], n))
  }

  /** As long as the line needs no third row and no program takes one, every run mirrors it all the way. */
  lemma {:induction false} ShortLinesMirror(z: Scene, before: seq<Cell>, start: int, n: nat, strokes: seq<Stroke>)
    requires Good(z) && Pressable(strokes) && MirrorsScene(z, before, start) && Near(z.g, start, n)
    requires (forall k :: k in strokes && k.key == Enter ==> !k.reading) && Within(z, strokes, n)
    ensures MirrorsThroughout(z, before, start, strokes)
    decreases |strokes|
  {
    hide EchoesRight, BeforeNext, StartNext, Proper, Anchored, Near, KeyPressable, Mirrors;
    if strokes != [] {
      var k, r := strokes[0].key, Struck(z, strokes[0]);
      NearEchoesRight(z.g, z.s, before, start, n, k);
      NearStays(z.g, z.s, before, start, n, k, strokes[0].reading);
      StrokeExactly(z, before, start, strokes[0]);
      ShortLinesMirror(r, BeforeNext(before, k), StartNext(start, k, r.g), n, strokes[1..]);
    }
  }

  /** After a prompt of at most 32 characters no line needs a third row. */
  lemma ShortPromptMirrors(prompt: string, strokes: seq<Stroke>)
    requires Printable(prompt) && |prompt| % COLS <= 2 * COLS - 1 - MAX_CHARACTERS && Pressable(strokes)
    requires forall k :: k in strokes && k.key == Enter ==> !k.reading
    ensures Good(Prompted(prompt)) && MirrorsThroughout(Prompted(prompt), Typeset(prompt), |prompt|, strokes)
  {
    hide WriteAll, Good, Pressable, Within, MirrorsScene, MirrorsThroughout;
    PromptStands(prompt);
    AlwaysWithin(Prompted(prompt), strokes);
    ShortLinesMirror(Prompted(prompt), Typeset(prompt), |prompt|, MAX_CHARACTERS, strokes);
  }

  lemma {:induction false} AlwaysWithin(z: Scene, strokes: seq<Stroke>)
    requires Good(z) && Pressable(strokes)
    ensures Within(z, strokes, MAX_CHARACTERS)
    decreases |strokes|
  {
    hide Anchored, Struck, KeyPressable;
    if strokes != [] {
      AlwaysWithin(Struck(z, strokes[0]), strokes[1..]);
    }
  }

  // ---------- After a long prompt or line ----------

  function Typing(line: string): (strokes: seq<Stroke>)
    ensures |strokes| == |line| && forall i :: 0 <= i < |line| ==> strokes[i] == Stroke(Insert(line[i]), false)
  {
    seq(|line|, i requires 0 <= i < |line| => Stroke(Insert(line[i]), false))
  }

  function Lefts(n: nat): (strokes: seq<Stroke>)
    ensures |strokes| == n && forall i :: 0 <= i < n ==> strokes[i] == Stroke(Left, false)
  {
    seq(n, _ => Stroke(Left, false))
  }

  lemma {:induction false} InParts(z: Scene, a: seq<Stroke>, b: seq<Stroke>)
    requires Good(z) && Pressable(a) && Pressable(b)
    ensures Pressable(a + b) && StruckAll(z, a + b) == StruckAll(StruckAll(z, a), b)
    ensures AllRight(z, a + b) <==> AllRight(z, a) && AllRight(StruckAll(z, a), b)
    decreases |a|
  {
    hide EchoesRight, Struck, Proper, Anchored, KeyPressable;
    if a == [] {
      assert a + b == b;
    } else {
      assert (a + b)[1..] == a[1..] + b && (a + b)[0] == a[0];
      InParts(Struck(z, a[0]), a[1..], b);
    }
  }

  lemma NoStrokes(z: Scene)
    requires Good(z)
    ensures StruckAll(z, []) == z && AllRight(z, [])
  {
  }

  lemma FirstStroke(z: Scene, k: Stroke, rest: seq<Stroke>)
    requires Good(z) && KeyPressable(k.key) && Pressable(rest)
    ensures Pressable([k] + rest) && StruckAll(z, [k] + rest) == StruckAll(Struck(z, k), rest)
    ensures AllRight(z, [k] + rest) <==> EchoesRight(z.g, z.s, k.key) && AllRight(Struck(z, k), rest)
  {
    hide EchoesRight, Struck, Proper, Anchored, KeyPressable;
    assert ([k] + rest)[1..] == rest;
  }

  /** Typing the line writes it, and never finds the cursor too far left. */
  ghost predicate TypingIs(z: Scene, line: string)
    requires Good(z) && Pressable(Typing(line)) && Writable(z.g) && '\r' !in line
  {
    && AllRight(z, Typing(line))
    && StruckAll(z, Typing(line)) == Scene(WriteAll(z.g, line), AsTyped(z.s, line))
  }

  function AsTyped(s: Session, line: string): Session {
    s.(text := s.text + line, cursor := |s.text + line|)
  }

  lemma TypingFirst(z: Scene, c: char, rest: string)
    requires Good(z) && OnScreen(z.g) && z.s.cursor == |z.s.text| < MAX_CHARACTERS
    requires c != '\0' && c != '\n' && c != '\r' && '\r' !in rest && Pressable(Typing(rest))
    requires var next := Struck(z, Stroke(Insert(c), false)); Writable(next.g) && TypingIs(next, rest)
    ensures Pressable(Typing([c] + rest)) && TypingIs(z, [c] + rest)
  {
    hide WriteAll, OnScreen, Struck, StruckAll, AllRight, EchoesRight, Pressable, Good;
    TypeOne(z, c);
    assert Typing([c] + rest) == [Stroke(Insert(c), false)] + Typing(rest);
    FirstStroke(z, Stroke(Insert(c), false), Typing(rest));
    OnScreenWritable(z.g);
    WriteInPieces(z.g, [c], rest);
    assert (z.s.text + [c]) + rest == z.s.text + ([c] + rest);
  }

  /** A line that is typed is written, over however many rows. */
  lemma {:induction false} TypingWrites(z: Scene, line: string)
    requires Good(z) && OnScreen(z.g) && z.s.cursor == |z.s.text|
    requires Typed(line) && |z.s.text| + |line| <= MAX_CHARACTERS
    ensures Pressable(Typing(line)) && Writable(z.g) && '\r' !in line && TypingIs(z, line)
    decreases |line|
  {
    hide WriteAll, OnScreen, Struck, StruckAll, AllRight, EchoesRight, Typed, Pressable, Good, TypingIs;
    TypingPressable(line);
    OnScreenWritable(z.g);
    if line == "" {
      TypingNothing(z);
    } else {
      var c, rest := line[0], line[1..];
      TypeOne(z, c);
      TypingWrites(Struck(z, Stroke(Insert(c), false)), rest);
      TypingFirst(z, c, rest);
      assert [c] + rest == line;
    }
  }

  lemma TypingNothing(z: Scene)
    requires Good(z) && Writable(z.g) && z.s.cursor == |z.s.text|
    ensures Pressable(Typing("")) && TypingIs(z, "")
  {
    hide WriteAll, Good;
    NothingWritten(z.g);
    NoStrokes(z);
    assert z.s.text + "" == z.s.text && Typing("") == [];
  }

  lemma TypingPressable(line: string)
    requires Typed(line)
    ensures Pressable(Typing(line)) && '\r' !in line
    ensures line != "" ==> Typed(line[1..]) && line[0] != '\0' && line[0] != '\n' && line[0] != '\r'
  {
    forall k | k in Typing(line) ensures KeyPressable(k.key) {
      var i :| 0 <= i < |line| && k == Typing(line)[i];
      assert line[i] in line;
    }
  }

  lemma OnScreenWritable(g: Grid)
    requires OnScreen(g)
    ensures Writable(g)
  {
  }

  lemma TypeOne(z: Scene, c: char)
    requires Good(z) && OnScreen(z.g) && z.s.cursor == |z.s.text| < MAX_CHARACTERS
    requires c != '\0' && c != '\n' && c != '\r'
    ensures EchoesRight(z.g, z.s, Insert(c)) && OnScreen(WriteAll(z.g, [c]))
    ensures Struck(z, Stroke(Insert(c), false))
         == Scene(WriteAll(z.g, [c]), z.s.(text := z.s.text + [c], cursor := |z.s.text| + 1))
  {
    hide WriteAll;
    assert [c] + Tail(z.s) == [c] && z.s.text[..z.s.cursor] == z.s.text;
  }

  lemma {:induction false} LeftsMove(z: Scene, n: nat)
    requires Good(z) && n <= z.s.cursor
    ensures Pressable(Lefts(n)) && AllRight(z, Lefts(n))
    ensures StruckAll(z, Lefts(n)) == Scene(Moved(z.g, 0 - n), z.s.(cursor := z.s.cursor - n))
    decreases n
  {
    hide Anchored, Proper;
    if n != 0 {
      assert Lefts(n)[1..] == Lefts(n - 1);
      LeftsMove(Struck(z, Stroke(Left, false)), n - 1);
    }
  }

  function InsertingBack(line: string, lefts: nat, c: char): seq<Stroke> {
    Typing(line) + (Lefts(lefts) + [Stroke(Insert(c), false)])
  }

  lemma BackRight(z: Scene, line: string, lefts: nat, c: char)
    requires Good(z) && OnScreen(z.g) && z.s.text == "" && z.s.cursor == 0
    requires Typed(line) && |line| < MAX_CHARACTERS && lefts <= |line|
    requires c != '\0' && KeyPressable(Insert(c))
    ensures Pressable(InsertingBack(line, lefts, c))
    ensures AllRight(z, InsertingBack(line, lefts, c)) <==> lefts <= (Place(z.g) + |line|) % COLS + COLS
  {
    hide WriteAll, Place, Struck, StruckAll, AllRight, Typed, Proper, Anchored, OnScreen;
    TypingWrites(z, line);
    assert "" + line == line;
    var typed, back, insert := StruckAll(z, Typing(line)), Lefts(lefts), [Stroke(Insert(c), false)];
    ColumnOnScreen(z.g, line);
    LeftsMove(typed, lefts);
    OneStroke(StruckAll(typed, back), insert[0]);
    InParts(typed, back, insert);
    InParts(z, Typing(line), back + insert);
  }

  /** Typing a line after a prompt, going back over some of it, and inserting: the screen mirrors the line
      all the way if and only if the cursor is not moved more than 80 columns left of its row. */
  lemma InsertFarBack(prompt: string, line: string, lefts: nat, c: char)
    requires Printable(prompt) && Typed(line) && |line| < MAX_CHARACTERS && lefts <= |line|
    requires c != '\0' && KeyPressable(Insert(c))
    ensures var strokes := InsertingBack(line, lefts, c);
            && Good(Prompted(prompt)) && Pressable(strokes)
            && (MirrorsThroughout(Prompted(prompt), Typeset(prompt), |prompt|, strokes)
                <==> lefts <= (|prompt| + |line|) % COLS + COLS)
  {
    hide MirrorsScene, MirrorsThroughout, WriteAll, AllRight, InsertingBack, Good;
    var z := Prompted(prompt);
    PromptStands(prompt);
    BackRight(z, line, lefts, c);
    RunExactly(z, Typeset(prompt), |prompt|, InsertingBack(line, lefts, c));
  }

  lemma OneStroke(z: Scene, k: Stroke)
    requires Good(z) && KeyPressable(k.key)
    ensures Pressable([k]) && (AllRight(z, [k]) <==> EchoesRight(z.g, z.s, k.key))
  {
    hide EchoesRight, Proper, Anchored;
  }

  lemma ColumnOnScreen(g: Grid, text: string)
    requires OnScreen(g) && Printable(text)
    ensures OnScreen(WriteAll(g, text)) && WriteAll(g, text).x == (Place(g) + |text|) % COLS
  {
    hide WriteAll;
    if text == "" {
      NothingWritten(g);
    } else {
      SkipsOnce(g, text);
    }
  }

  /** For example, with 40 characters of prompt and 120 of line, 80 keys to the left are right and 81 are
      too many. */
  lemma ThirdRowBreaks(prompt: string, line: string, c: char)
    requires Printable(prompt) && |prompt| == 40 && Typed(line) && |line| == 120
    requires c != '\0' && KeyPressable(Insert(c))
    ensures var z, near, far := Prompted(prompt), InsertingBack(line, 80, c), InsertingBack(line, 81, c);
            && Good(z) && Pressable(near) && Pressable(far)
            && MirrorsThroughout(z, Typeset(prompt), |prompt|, near)
            && !MirrorsThroughout(z, Typeset(prompt), |prompt|, far)
  {
    hide MirrorsThroughout, InsertingBack, Good, Pressable;
    InsertFarBack(prompt, line, 80, c);
    InsertFarBack(prompt, line, 81, c);
  }
}
