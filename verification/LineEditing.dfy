/** Line editing with a history, as the user sees it: a text with a cursor in it, and an unbounded list
    of the lines submitted before. */
module LineEditing {

  const MAX_CHARACTERS: nat := 127
  const NUM_HISTORY: nat := 20

  /** `browse` tells how many lines back the user has gone, and `scratch` is the line that was being
      typed when that began. */
  datatype Session = Session(text: string, cursor: nat, lines: seq<string>, scratch: string, browse: nat)

  datatype Key = Insert(c: char) | Erase | Left | Right | Up | Down | Enter | Clear

  predicate Typed(s: string) {
    |s| <= MAX_CHARACTERS && '\0' !in s && '\n' !in s && '\r' !in s
  }

  /** Only the newest lines are still there to go back to: one slot of the ring is the scratch slot. */
  function Depth(s: Session): nat {
    if |s.lines| < NUM_HISTORY then |s.lines| else NUM_HISTORY - 1
  }

  ghost predicate Proper(s: Session) {
    && Typed(s.text) && Typed(s.scratch) && s.cursor <= |s.text| && s.browse <= Depth(s)
    && forall j :: 0 <= j < |s.lines| ==> Typed(s.lines[j])
  }

  /** The keys that are looked up in the scancode tables have neither newlines nor returns for characters:
      the newline in the tables is at the entry of Enter, which is handled before. The character 0 stands
      for a key without one. */
  predicate KeyPressable(k: Key) {
    k.Insert? ==> k.c != '\n' && k.c != '\r'
  }

  function Inserted(s: Session, c: char): Session
    requires s.cursor <= |s.text|
  {
    if |s.text| == MAX_CHARACTERS || c == '\0' then s
    else s.(text := s.text[..s.cursor] + [c] + s.text[s.cursor..], cursor := s.cursor + 1)
  }

  function Erased(s: Session): Session
    requires s.cursor <= |s.text|
  {
    if s.cursor == 0 then s
    else s.(text := s.text[..s.cursor - 1] + s.text[s.cursor..], cursor := s.cursor - 1)
  }

  /** The line `k` steps back: 0 is the unsent one. */
  function Recalled(s: Session, k: nat): string
    requires k <= Depth(s)
  {
    if k == 0 then s.scratch else s.lines[|s.lines| - k]
  }

  function Upped(s: Session): Session
    requires s.browse <= Depth(s)
  {
    if s.browse == Depth(s) then s
    else
      var saved := if s.browse == 0 then s.(scratch := s.text) else s;
      Showing(saved, s.browse + 1)
  }

  function Downed(s: Session): Session
    requires s.browse <= Depth(s)
  {
    if s.browse == 0 then s else Showing(s, s.browse - 1)
  }

  function Showing(s: Session, k: nat): Session
    requires k <= Depth(s)
  {
    s.(browse := k, text := Recalled(s, k), cursor := |Recalled(s, k)|)
  }

  /** An empty line is not submitted, and then the place in the history is kept. */
  function Entered(s: Session): Session {
    if s.text == "" then s.(cursor := 0)
    else s.(text := "", cursor := 0, lines := s.lines + [s.text], browse := 0)
  }

  function Pressed(s: Session, k: Key): Session
    requires Proper(s)
  {
    match k
    case Insert(c) => Inserted(s, c)
    case Erase => Erased(s)
    case Left => if s.cursor == 0 then s else s.(cursor := s.cursor - 1)
    case Right => if s.cursor == |s.text| then s else s.(cursor := s.cursor + 1)
    case Up => Upped(s)
    case Down => Downed(s)
    case Enter => Entered(s)
    case Clear => s.(text := "", cursor := 0)
  }

  lemma StaysProper(s: Session, k: Key)
    requires Proper(s) && KeyPressable(k)
    ensures Proper(Pressed(s, k))
  {
    match k
    case Insert(c) =>
      assert forall d :: d in Inserted(s, c).text ==> d in s.text || d == c;
    case Erase =>
      assert forall d :: d in Erased(s).text ==> d in s.text;
    case _ =>
  }

  function PressedAll(s: Session, keys: seq<Key>): (r: Session)
    requires Proper(s) && forall k :: k in keys ==> KeyPressable(k)
    ensures Proper(r)
    decreases |keys|
  {
    if keys == [] then s
    else
      StaysProper(s, keys[0]);
      PressedAll(Pressed(s, keys[0]), keys[1..])
  }

  // ---------- Editing ----------

  /** Erasing takes back an insertion. */
  lemma EraseUndoesInsert(s: Session, c: char)
    requires Proper(s) && c != '\0' && |s.text| < MAX_CHARACTERS
    ensures Erased(Inserted(s, c)) == s
  {
    var t := Inserted(s, c).text;
    assert t[..s.cursor] == s.text[..s.cursor] && t[s.cursor + 1..] == s.text[s.cursor..];
    assert s.text[..s.cursor] + s.text[s.cursor..] == s.text;
  }

  function Front(s: Session): string
    requires s.cursor <= |s.text|
  {
    s.text[..s.cursor]
  }

  function Back(s: Session): string
    requires s.cursor <= |s.text|
  {
    s.text[s.cursor..]
  }

  /** The line as what is before the cursor and what is behind it. */
  datatype Zipper = Zipper(front: string, back: string)

  /** The keys on the two parts: they add, take and move one character at the cursor. */
  function Edited(z: Zipper, k: Key): Zipper {
    match k
    case Insert(c) => if |z.front| + |z.back| < 127 && c != '\0' then Zipper(z.front + [c], z.back) else z
    case Erase => if z.front == "" then z else Zipper(z.front[..|z.front| - 1], z.back)
    case Left => if z.front == "" then z else Zipper(z.front[..|z.front| - 1], [z.front[|z.front| - 1]] + z.back)
    case Right => if z.back == "" then z else Zipper(z.front + [z.back[0]], z.back[1..])
    case _ => Zipper("", "")
  }

  predicate Edits(k: Key) {
    !k.Up? && !k.Down?
  }

  /** A key edits the line at the cursor, and nothing but an Enter adds to the lines that are kept. */
  lemma KeyEdits(s: Session, k: Key)
    requires Proper(s) && KeyPressable(k) && Edits(k)
    ensures Proper(Pressed(s, k))
    ensures var r := Pressed(s, k);
            && Zipper(Front(r), Back(r)) == Edited(Zipper(Front(s), Back(s)), k)
            && r.lines == (if k == Enter && s.text != "" then s.lines + [s.text] else s.lines)
            && r.scratch == s.scratch && r.browse == if k == Enter && s.text != "" then 0 else s.browse
  {
    StaysProper(s, k);
    var z, r := Zipper(Front(s), Back(s)), Pressed(s, k);
    assert |z.front| + |z.back| == |s.text|;
    match k
    case Insert(c) =>
      assert r != s ==> Front(r) == z.front + [c] && Back(r) == z.back;
    case Erase =>
      assert r != s ==> Front(r) == z.front[..|z.front| - 1] && Back(r) == z.back;
    case Left =>
    case Right =>
    case _ =>
  }

  function EditedAll(z: Zipper, keys: seq<Key>): Zipper
    decreases |keys|
  {
    if keys == [] then z else EditedAll(Edited(z, keys[0]), keys[1..])
  }

  /** Over every run of editing keys the buffer with its index is the text on both sides of the cursor. */
  lemma {:induction false} RunEdits(s: Session, keys: seq<Key>)
    requires Proper(s) && forall k :: k in keys ==> KeyPressable(k) && Edits(k)
    ensures var r := PressedAll(s, keys); Zipper(Front(r), Back(r)) == EditedAll(Zipper(Front(s), Back(s)), keys)
    decreases |keys|
  {
    hide Pressed, Proper, Edited, Front, Back;
    if keys != [] {
      KeyEdits(s, keys[0]);
      RunEdits(Pressed(s, keys[0]), keys[1..]);
    }
  }

  function LeftTimes(s: Session, k: nat): (r: Session)
    requires Proper(s)
    ensures Proper(r)
  {
    if k == 0 then s
    else
      StaysProper(LeftTimes(s, k - 1), Left);
      Pressed(LeftTimes(s, k - 1), Left)
  }

  function RightTimes(s: Session, k: nat): (r: Session)
    requires Proper(s)
    ensures Proper(r)
  {
    if k == 0 then s
    else
      StaysProper(RightTimes(s, k - 1), Right);
      Pressed(RightTimes(s, k - 1), Right)
  }

  /** The cursor keys move the cursor by one place each, as far as the line goes. */
  lemma {:induction false} CursorMoves(s: Session, k: nat)
    requires Proper(s)
    ensures LeftTimes(s, k) == s.(cursor := if k <= s.cursor then s.cursor - k else 0)
    ensures RightTimes(s, k) == s.(cursor := if k <= |s.text| - s.cursor then s.cursor + k else |s.text|)
  {
    hide Proper;
    CursorInLine(s);
    if k != 0 {
      CursorMoves(s, k - 1);
    }
  }

  lemma CursorInLine(s: Session)
    requires Proper(s)
    ensures s.cursor <= |s.text|
  {
  }

  /** As many times to the right as to the left, within the line, changes nothing. */
  lemma RightUndoesLeft(s: Session, k: nat)
    requires Proper(s) && k <= s.cursor
    ensures RightTimes(LeftTimes(s, k), k) == s
  {
    CursorMoves(s, k);
    CursorMoves(LeftTimes(s, k), k);
  }

  // ---------- Browsing ----------

  function UpTimes(s: Session, k: nat): (r: Session)
    requires s.browse <= Depth(s)
    ensures r.browse <= Depth(r)
  {
    if k == 0 then s else Upped(UpTimes(s, k - 1))
  }

  function DownTimes(s: Session, k: nat): (r: Session)
    requires s.browse <= Depth(s)
    ensures r.browse <= Depth(r)
  {
    if k == 0 then s else Downed(DownTimes(s, k - 1))
  }

  /** From the unsent line, `k` times up shows the `k`th newest line. */
  lemma {:induction false} UpShows(s: Session, k: nat)
    requires Proper(s) && s.browse == 0 && 1 <= k <= Depth(s)
    ensures var r := UpTimes(s, k);
            && r.text == s.lines[|s.lines| - k] && r.cursor == |r.text| && r.browse == k
            && r.scratch == s.text && r.lines == s.lines
  {
    if k == 1 {
      assert UpTimes(s, 0) == s;
    } else {
      UpShows(s, k - 1);
    }
  }

  lemma {:induction false} DownShows(s: Session, k: nat)
    requires Proper(s) && k <= s.browse
    ensures var r := DownTimes(s, k);
            && r.browse == s.browse - k && r.lines == s.lines && r.scratch == s.scratch
            && (1 <= k ==> r.text == Recalled(s, s.browse - k) && r.cursor == |r.text|)
  {
    if k != 0 {
      DownShows(s, k - 1);
    }
  }

  /** As many times down brings the unsent line back, with the cursor at its end. */
  lemma DownUndoesUp(s: Session, k: nat)
    requires Proper(s) && s.browse == 0 && 1 <= k <= Depth(s)
    ensures DownTimes(UpTimes(s, k), k) == s.(cursor := |s.text|, scratch := s.text)
  {
    UpShows(s, k);
    UpProper(s, k);
    DownShows(UpTimes(s, k), k);
  }

  lemma {:induction false} UpProper(s: Session, k: nat)
    requires Proper(s)
    ensures Proper(UpTimes(s, k))
  {
    if k != 0 {
      UpProper(s, k - 1);
      StaysProper(UpTimes(s, k - 1), Up);
    }
  }

  /** The lines kept are the newest 19; from the oldest of them up leads no further. */
  lemma {:induction false} UpStops(s: Session, k: nat)
    requires Proper(s) && s.browse == 0
    ensures Depth(s) == if |s.lines| < 19 then |s.lines| else 19
    ensures k >= Depth(s) ==> UpTimes(s, k) == UpTimes(s, Depth(s))
  {
    if k > Depth(s) {
      UpStops(s, k - 1);
      if Depth(s) > 0 {
        UpShows(s, Depth(s));
      }
    }
  }

  /** A line that was submitted is the first to come back, and the lines submitted before are one step further. */
  lemma EnteredComesBack(s: Session, k: nat)
    requires Proper(s) && s.text != "" && 1 <= k <= Depth(Entered(s))
    ensures Proper(Entered(s))
    ensures k == 1 ==> UpTimes(Entered(s), k).text == s.text
    ensures k > 1 ==> |s.lines| >= k - 1 && UpTimes(Entered(s), k).text == s.lines[|s.lines| - (k - 1)]
  {
    StaysProper(s, Enter);
    UpShows(Entered(s), k);
  }
}
