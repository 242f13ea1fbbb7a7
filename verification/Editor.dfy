/** The keyboard driver of one terminal: it edits the line and its history in place, echoes what changes,
    and hands a finished line to the program that waits for it. */
module Editor {
  import opened Screen
  import opened LineEditing
  import opened HistoryRing
  import opened ReadBuffer
  import opened TextRows
  import CStrings
  import Echo

  class Keyboard {
    const buffer: array<char>
    const history: array2<char>
    const readBuffer: array<char>
    const display: Display

    var bufferIDX: int
    var bufferSIZE: int
    var historyIDX: int
    var historyBASE: int
    var historySIZE: int
    /** A program waits for a line. */
    var returnSwitch: bool
    ghost var session: Session
    /** The program in the middle of a read. */
    ghost var reader: Reader

    ghost predicate Sizes() {
      && buffer.Length == readBuffer.Length == history.Length1 == LINE_BYTES && history.Length0 == NUM_HISTORY
      && buffer != readBuffer
    }

    ghost function SlotBytes(slot: nat): (bytes: seq<char>)
      requires Sizes() && slot < NUM_HISTORY
      reads history
      ensures |bytes| == LINE_BYTES && forall i :: 0 <= i < LINE_BYTES ==> bytes[i] == history[slot, i]
    {
      seq(LINE_BYTES, i requires 0 <= i < LINE_BYTES reads history => history[slot, i])
    }

    ghost function Slots(): (slots: seq<seq<char>>)
      requires Sizes()
      reads history
      ensures |slots| == NUM_HISTORY && forall j :: 0 <= j < NUM_HISTORY ==> slots[j] == SlotBytes(j)
    {
      seq(NUM_HISTORY, j requires 0 <= j < NUM_HISTORY reads history => SlotBytes(j))
    }

    ghost function RingView(): Ring
      requires Sizes()
      reads this, history
    {
      Ring(Slots(), historyIDX, historyBASE, historySIZE)
    }

    /** The buffer holds the line. */
    ghost predicate LineIs(s: Session)
      reads this, buffer
    {
      Holds(buffer[..], s.text) && bufferIDX == s.cursor && bufferSIZE == |s.text|
    }

    ghost function AsDesk(): Desk
      reads this, readBuffer
    {
      Desk(session, returnSwitch, readBuffer[..], reader)
    }

    ghost predicate Valid()
      reads this, buffer, history, readBuffer
    {
      Sizes() && Sound(AsDesk()) && LineIs(session) && Remembers(RingView(), session)
    }

    constructor (display: Display)
      ensures Valid() && session == Session("", 0, [], "", 0) && !returnSwitch && reader == NoReader
          && this.display == display
      ensures fresh(buffer) && fresh(history) && fresh(readBuffer)
    {
      this.display := display;
      buffer := new char[LINE_BYTES](_ => '\0');
      readBuffer := new char[LINE_BYTES](_ => '\0');
      history := new char[NUM_HISTORY, LINE_BYTES]((_, _) => '\0');
      bufferIDX, bufferSIZE, historyIDX, historyBASE, historySIZE := 0, 0, 0, 0, 0;
      returnSwitch := false;
      session := Session("", 0, [], "", 0);
      reader := NoReader;
    }

    // ---------- The buffer ----------

    method InsertCharacter(c: char, ghost text: string)
      requires Sizes() && Holds(buffer[..], text) && bufferSIZE == |text| < MAX_CHARACTERS && 0 <= bufferIDX <= |text|
      modifies buffer
      ensures Holds(buffer[..], text[..bufferIDX] + [c] + text[bufferIDX..])
    {
      ghost var was := buffer[..];
      var i := bufferSIZE;
      while i >= bufferIDX
        invariant bufferIDX - 1 <= i <= bufferSIZE
        invariant forall k :: 0 <= k < LINE_BYTES ==>
            buffer[k] == was[if i + 2 <= k <= bufferSIZE + 1 then k - 1 else k]
      {
        buffer[i + 1] := buffer[i];
        i := i - 1;
      }
      buffer[bufferIDX] := c;
    }

    method RemoveCharacter(ghost text: string)
      requires Sizes() && Holds(buffer[..], text) && bufferSIZE == |text| && 0 < bufferIDX <= |text|
      modifies buffer
      ensures Holds(buffer[..], text[..bufferIDX - 1] + text[bufferIDX..])
    {
      ghost var was := buffer[..];
      var i := bufferIDX - 1;
      while i < bufferSIZE
        invariant bufferIDX - 1 <= i <= bufferSIZE
        invariant forall k :: bufferIDX - 1 <= k < i ==> buffer[k] == was[k + 1]
        invariant forall k :: 0 <= k < LINE_BYTES && !(bufferIDX - 1 <= k < i) ==> buffer[k] == was[k]
      {
        buffer[i] := buffer[i + 1];
        i := i + 1;
      }
      buffer[bufferSIZE] := '\0';
    }

    method ClearKeyboardBuffer()
      requires Sizes()
      modifies this`bufferIDX, this`bufferSIZE, buffer
      ensures Holds(buffer[..], "") && bufferIDX == bufferSIZE == 0
    {
      for i := 0 to LINE_BYTES
        invariant forall k :: 0 <= k < i ==> buffer[k] == '\0'
      {
        buffer[i] := '\0';
      }
      bufferIDX := 0;
      bufferSIZE := 0;
    }

    // ---------- The history ----------

    /** Stores the line in the base slot. */
    method CopyToHistory(ghost text: string)
      requires Sizes() && 0 <= historyBASE < NUM_HISTORY && Holds(buffer[..], text) && '\n' !in text
      modifies history
      ensures Slots() == old(Slots())[historyBASE := buffer[..]]
    {
      for i := 0 to LINE_BYTES
        invariant forall k :: 0 <= k < i ==> history[historyBASE, k] == buffer[k]
        invariant forall j, k :: 0 <= j < NUM_HISTORY && 0 <= k < LINE_BYTES && j != historyBASE ==>
            history[j, k] == old(history[j, k])
      {
        var c := buffer[i];
        if c == '\n' || c == '\0' {
          c := '\0';
        }
        history[historyBASE, i] := c;
      }
      assert SlotBytes(historyBASE) == buffer[..];
      assert forall j :: 0 <= j < NUM_HISTORY && j != historyBASE ==> SlotBytes(j) == old(SlotBytes(j));
    }

    method IncrementHistoryIndices()
      requires 0 <= historyBASE
      modifies this`historyBASE, this`historyIDX, this`historySIZE
      ensures historyBASE == historyIDX == (old(historyBASE) + 1) % NUM_HISTORY
      ensures historySIZE == if old(historySIZE) < NUM_HISTORY then old(historySIZE) + 1 else old(historySIZE)
    {
      historyBASE := (historyBASE + 1) % NUM_HISTORY;
      historyIDX := historyBASE;
      if historySIZE < NUM_HISTORY {
        historySIZE := historySIZE + 1;
      }
    }

    /** Copies a line of the history into the cleared buffer. */
    method CopyFromHistory(ghost text: string)
      requires Sizes() && 0 <= historyIDX < NUM_HISTORY && Holds(SlotBytes(historyIDX), text) && Typed(text)
      requires Holds(buffer[..], "") && bufferIDX == bufferSIZE == 0
      modifies this`bufferIDX, this`bufferSIZE, buffer
      ensures Holds(buffer[..], text) && bufferIDX == bufferSIZE == |text|
    {
      ghost var bytes := SlotBytes(historyIDX);
      var i := 0;
      while i < LINE_BYTES
        invariant 0 <= i <= |text| && bufferIDX == bufferSIZE == i
        invariant forall k :: 0 <= k < LINE_BYTES ==> buffer[k] == if k < i then bytes[k] else '\0'
      {
        var c := history[historyIDX, i];
        assert c == bytes[i] && (i < |text| ==> c in text);
        if c == '\0' || c == '\n' {
          break;
        }
        buffer[i] := c;
        bufferIDX := bufferIDX + 1;
        bufferSIZE := bufferSIZE + 1;
        i := i + 1;
      }
    }

    // ---------- The keys ----------

    method KeyboardInsert(c: char)
      requires Valid() && |session.text| < MAX_CHARACTERS && c != '\0' && KeyPressable(Insert(c))
      requires Echo.Anchored(display.View(), session)
      modifies this`bufferIDX, this`bufferSIZE, this`session, buffer, display, display.cells
      ensures Valid() && session == Inserted(old(session), c)
      ensures display.View() == Echo.InsertEchoed(old(display.View()), old(session), c)
    {
      hide Holds, Remembers, WriteAll;
      ghost var s := session;
      StaysProper(s, Insert(c));
      SameRing(RingView(), s, Inserted(s, c));
      InsertCharacter(c, s.text);
      InsertedBytes(buffer[..], s, c);
      var numChars := bufferSIZE - bufferIDX + 1;
      var written := display.TerminalWrite(buffer, bufferIDX, numChars);
      display.MoveLeft(numChars - 1);
      bufferIDX := bufferIDX + 1;
      bufferSIZE := bufferSIZE + 1;
      session := Inserted(s, c);
    }

    method KeyboardBackspace()
      requires Valid() && session.cursor > 0 && Echo.Anchored(display.View(), session)
      modifies this`bufferIDX, this`bufferSIZE, this`session, buffer, display, display.cells
      ensures Valid() && session == Erased(old(session))
      ensures display.View() == Echo.EraseEchoed(old(display.View()), old(session))
    {
      hide Holds, Remembers, WriteAll, Backspace;
      ghost var s := session;
      StaysProper(s, Erase);
      SameRing(RingView(), s, Erased(s));
      RemoveCharacter(s.text);
      ErasedBytes(buffer[..], s);
      var numChars := bufferSIZE - bufferIDX + 1;
      display.Erase();
      var written := display.TerminalWrite(buffer, bufferIDX - 1, numChars);
      display.MoveLeft(numChars);
      bufferIDX := bufferIDX - 1;
      bufferSIZE := bufferSIZE - 1;
      session := Erased(s);
    }

    method LeftArrow()
      requires Valid() && Echo.Anchored(display.View(), session)
      modifies this`bufferIDX, this`session, display`screenX
      ensures Valid() && session == Pressed(old(session), Left)
      ensures display.View() == Echo.Echoed(old(display.View()), old(session), Left, returnSwitch)
    {
      hide Holds, Remembers;
      ghost var s := session;
      StaysProper(s, Left);
      SameRing(RingView(), s, Pressed(s, Left));
      if bufferIDX != 0 {
        bufferIDX := bufferIDX - 1;
        display.MoveLeft(1);
      }
      session := Pressed(s, Left);
    }

    method RightArrow()
      requires Valid() && Echo.Anchored(display.View(), session)
      modifies this`bufferIDX, this`session, display`screenX
      ensures Valid() && session == Pressed(old(session), Right)
      ensures display.View() == Echo.Echoed(old(display.View()), old(session), Right, returnSwitch)
    {
      hide Holds, Remembers;
      ghost var s := session;
      StaysProper(s, Right);
      SameRing(RingView(), s, Pressed(s, Right));
      if bufferIDX != bufferSIZE {
        bufferIDX := bufferIDX + 1;
        display.MoveRight(1);
      }
      session := Pressed(s, Right);
    }

    /** Takes the line off the screen. */
    method ResetTerminalInput(index: int, size: nat)
      requires var g := display.View(); ErasableTimes(g.(x := g.x + size - index), size)
      modifies display, display.cells
      ensures var g := old(display.View()); display.View() == BackspaceTimes(g.(x := g.x + size - index), size)
    {
      hide Backspace, Writable, OnScreen;
      display.MoveRight(size - index);
      ghost var g := display.View();
      var i := size;
      while i > 0
        invariant 0 <= i <= size && ErasableTimes(g, size - i) && display.View() == BackspaceTimes(g, size - i)
      {
        CanErase(g, size - i);
        display.Erase();
        i := i - 1;
      }
    }

    /** Puts a line of the history in the place of the one being edited. */
    method ShowFromHistory(ghost s: Session, ghost text: string)
      requires Sizes() && Proper(s) && LineIs(s) && Typed(text)
      requires 0 <= historyIDX < NUM_HISTORY && Holds(SlotBytes(historyIDX), text)
      requires ErasableTimes(Echo.AtLineEnd(display.View(), s), |s.text|)
      modifies this`bufferIDX, this`bufferSIZE, buffer, display, display.cells
      ensures Holds(buffer[..], text) && bufferIDX == bufferSIZE == |text|
      ensures display.View() == Echo.Redrawn(old(display.View()), s, text)
    {
      hide BackspaceTimes, WriteAll, Proper, Writable, OnScreen;
      ResetTerminalInput(bufferIDX, bufferSIZE);
      ClearKeyboardBuffer();
      CopyFromHistory(text);
      assert buffer[0..bufferSIZE] == text;
      var written := display.TerminalWrite(buffer, 0, bufferSIZE);
      Echo.NothingWritten(BackspaceTimes(Echo.AtLineEnd(old(display.View()), s), |s.text|));
    }

    method UpHistory()
      requires Valid() && Echo.Anchored(display.View(), session)
      modifies this`bufferIDX, this`bufferSIZE, this`historyIDX, this`session, buffer, history, display, display.cells
      ensures Valid() && session == Upped(old(session))
      ensures display.View() == Echo.Echoed(old(display.View()), old(session), Up, returnSwitch)
    {
      hide Holds, Remembers, Upped, Display.View, Echo.Redrawn;
      ghost var s, ring := session, RingView();
      StaysProper(s, Up);
      AtOldest(ring, s);
      RingBounds(ring, s);
      UppedMoves(s);
      if historySIZE < NUM_HISTORY && historyIDX == 0 {
        return;
      }
      if s.browse < Depth(s) {
        SavesScratch(ring, s, buffer[..]);
      }
      if historyIDX == historyBASE {
        AtBase(ring, s);
        CopyToHistory(s.text);
      }
      var i := historyIDX - 1;
      if i < 0 {
        i := NUM_HISTORY - 1;
      }
      if i == historyBASE {
        return;
      }
      historyIDX := i;
      ShowFromHistory(s, Upped(s).text);
      session := Upped(s);
    }

    method DownHistory()
      requires Valid() && Echo.Anchored(display.View(), session)
      modifies this`bufferIDX, this`bufferSIZE, this`historyIDX, this`session, buffer, display, display.cells
      ensures Valid() && session == Downed(old(session))
      ensures display.View() == Echo.Echoed(old(display.View()), old(session), Down, returnSwitch)
    {
      hide Holds, Remembers, Downed, Display.View, Echo.Redrawn;
      ghost var s, ring := session, RingView();
      StaysProper(s, Down);
      AtBase(ring, s);
      RingBounds(ring, s);
      DownedMoves(s);
      if historySIZE < NUM_HISTORY && historyIDX == historyBASE {
        return;
      }
      if historyIDX == historyBASE {
        return;
      }
      StepsDown(ring, s);
      historyIDX := (historyIDX + 1) % NUM_HISTORY;
      ShowFromHistory(s, Downed(s).text);
      session := Downed(s);
    }

    /** Copies the buffer out, up to the end of its line or as much as is asked for. */
    method KeyboardRead(output: array<char>, nbytes: int) returns (count: int)
      requires Sizes() && output != buffer && nbytes <= output.Length
      requires FirstEnd(buffer[..]) == LINE_BYTES <= nbytes ==> LINE_BYTES < output.Length
      modifies output
      ensures count == if nbytes < 1 then -1 else AtMost(FirstEnd(buffer[..]), nbytes)
      ensures var end := FirstEnd(buffer[..]);
              forall k :: 0 <= k < output.Length ==>
                output[k] == if k < nbytes && k <= end && k < LINE_BYTES then buffer[k]
                             else if k == end == LINE_BYTES <= nbytes then '\n' else old(output[k])
    {
      if nbytes < 1 {
        return -1;
      }
      ghost var end := FirstEnd(buffer[..]);
      var i := 0;
      while i < nbytes
        invariant 0 <= i <= nbytes && i <= end && i < LINE_BYTES
        invariant forall k :: 0 <= k < output.Length ==> output[k] == if k < i then buffer[k] else old(output[k])
      {
        var c := buffer[i];
        output[i] := c;
        if c == '\n' || c == '\0' {
          return i;
        }
        i := i + 1;
        if i == LINE_BYTES {
          output[i] := '\n';
          return i;
        }
      }
      return i;
    }

    /** The line goes to the program that waits for it; nobody waiting, the screen goes to a new row. */
    method TerminalReturn(ghost text: string)
      requires Sizes() && Typed(text) && Finished(buffer[..], text) && display.cells.Length == CELLS
      modifies this`returnSwitch, readBuffer, display, display.cells
      ensures !returnSwitch
      ensures readBuffer[..]
           == if old(returnSwitch) then Received(old(readBuffer[..]), text) else old(readBuffer[..])
      ensures display.View() == if old(returnSwitch) then old(display.View()) else NextLine(old(display.View()))
    {
      hide Typed, NextLine, FirstEnd;
      if returnSwitch {
        FinishedEnd(buffer[..], text);
        var count := KeyboardRead(readBuffer, LINE_BYTES);
        returnSwitch := false;
      } else {
        display.MoveToNextLine();
      }
    }

    /** A line that is not empty goes to the history. */
    method SubmitLine()
      requires Valid()
      modifies this`historyIDX, this`historyBASE, this`historySIZE, history
      ensures Remembers(RingView(), Entered(session))
    {
      hide Remembers, Holds, Entered, Proper;
      ghost var s, ring := session, RingView();
      RingBounds(ring, s);
      LineStored(buffer[..], s);
      if buffer[0] != '\0' {
        StoresLine(ring, s, buffer[..]);
        CopyToHistory(s.text);
        IncrementHistoryIndices();
      } else {
        SameRing(ring, s, Entered(s));
      }
    }

    method EnterKey()
      requires Valid() && display.cells.Length == CELLS
      modifies this`bufferIDX, this`bufferSIZE, this`historyIDX, this`historyBASE, this`historySIZE
      modifies this`returnSwitch, this`session, buffer, history, readBuffer, display, display.cells
      ensures Valid() && session == Entered(old(session)) && !returnSwitch
      ensures readBuffer[..] == if old(returnSwitch) then Received(old(readBuffer[..]), old(session.text))
                                else old(readBuffer[..])
      ensures display.View() == if old(returnSwitch) then old(display.View()) else NextLine(old(display.View()))
    {
      hide Remembers, NextLine, Display.View, Holds, Finished, Received, Entered;
      ghost var s := session;
      StaysProper(s, Enter);
      LineStored(buffer[..], s);
      SubmitLine();
      ghost var stored := buffer[..];
      buffer[bufferSIZE] := '\n';
      assert buffer[..] == stored[bufferSIZE := '\n'];
      TerminalReturn(s.text);
      ClearKeyboardBuffer();
      session := Entered(s);
    }

    method ClearKey()
      requires Valid() && display.cells.Length == CELLS
      modifies this`bufferIDX, this`bufferSIZE, this`session, buffer, display, display.cells
      ensures Valid() && session == Pressed(old(session), Clear)
      ensures display.View() == ClearedScreen()
    {
      hide Remembers, ClearedScreen;
      ghost var s := session;
      StaysProper(s, Clear);
      SameRing(RingView(), s, Pressed(s, Clear));
      ClearKeyboardBuffer();
      display.TerminalClear();
      session := Pressed(s, Clear);
    }

    /** What a decoded key does, on every line and every screen on which the line has room. */
    method HandleKey(k: Key)
      requires Valid() && KeyPressable(k) && Echo.Anchored(display.View(), session)
      modifies this`bufferIDX, this`bufferSIZE, this`historyIDX, this`historyBASE, this`historySIZE
      modifies this`returnSwitch, this`session, buffer, history, readBuffer, display, display.cells
      ensures Valid() && AsDesk() == KeyAt(old(AsDesk()), k)
      ensures Echo.Anchored(display.View(), session)
      ensures display.View() == Echo.Echoed(old(display.View()), old(session), k, old(returnSwitch))
    {
      hide Holds, Remembers, WriteAll, Backspace, ClearedScreen, NextLine, Received;
      Echo.EchoAnchored(display.View(), session, k, returnSwitch);
      if k == Up {
        UpHistory();
      } else if k == Down {
        DownHistory();
      } else if k == Left {
        LeftArrow();
      } else if k == Right {
        RightArrow();
      } else if k == Erase {
        if bufferIDX == 0 {
          return;
        }
        KeyboardBackspace();
      } else if k == Enter {
        EnterKey();
      } else if k == Clear {
        ClearKey();
      } else {
        if bufferSIZE == MAX_CHARACTERS {
          return;
        }
        if k.c == '\0' {
          return;
        }
        KeyboardInsert(k.c);
      }
    }

    /** The first half of a read: the wait begins. */
    method BeginRead(nbytes: int) returns (waits: bool)
      requires Valid() && reader == NoReader && nbytes <= LINE_BYTES
      modifies this`returnSwitch, this`reader
      ensures Valid() && waits == (nbytes >= 1)
      ensures AsDesk() == if waits then Begun(old(AsDesk()), nbytes) else old(AsDesk())
    {
      if nbytes < 1 {
        return false;
      }
      returnSwitch := true;
      reader := Reading(nbytes);
      return true;
    }

    /** The second half, once a line has come. The search for its newline needs one that the byte which
        is cut off does not take away. */
    method CompleteRead(buf: array<char>, nbytes: nat) returns (count: nat)
      requires Valid() && display.cells.Length == CELLS && buf != readBuffer && buf != buffer
      requires reader == Reading(nbytes) && !returnSwitch && nbytes <= buf.Length
      requires '\n' in Cut(readBuffer[..], nbytes)
      modifies this`reader, readBuffer, buf, display, display.cells
      ensures Valid() && AsDesk() == Completed(old(AsDesk()))
      ensures Outcome(count, buf[..nbytes]) == Returned(old(AsDesk())) && buf[nbytes..] == old(buf[nbytes..])
      ensures display.View() == NextLine(old(display.View()))
    {
      hide NextLine, Display.View, Remembers, Holds, Proper;
      readBuffer[nbytes - 1] := '\0';
      ghost var bytes := readBuffer[..];
      assert bytes == Cut(old(readBuffer[..]), nbytes);
      var i := 0;
      while readBuffer[i] != '\n'
        invariant i <= LineEnd(bytes) < LINE_BYTES
        decreases LINE_BYTES - i
      {
        i := i + 1;
      }
      CutEnds(old(readBuffer[..]), nbytes);
      CStrings.Strncpy(buf, readBuffer, nbytes, |CStrings.CString(bytes, 0)|);
      display.MoveToNextLine();
      reader := NoReader;
      return i + 1;
    }
  }

  /** A line that an Enter has finished with a newline. */
  predicate Finished(bytes: seq<char>, text: string) {
    && |bytes| == LINE_BYTES && |text| < LINE_BYTES
    && (forall i :: 0 <= i < |text| ==> bytes[i] == text[i]) && bytes[|text|] == '\n'
  }

  lemma LineStored(bytes: seq<char>, s: Session)
    requires Proper(s) && Holds(bytes, s.text)
    ensures bytes[0] == '\0' <==> s.text == ""
    ensures Typed(s.text) && '\n' !in s.text && Finished(bytes[|s.text| := '\n'], s.text)
    ensures Entered(s).text == "" && Entered(s).cursor == 0 && (s.text == "" ==> Entered(s) == s.(cursor := 0))
  {
    assert s.text != "" ==> s.text[0] in s.text;
  }

  /** Where the line in the buffer ends. */
  function FirstEnd(bytes: seq<char>): (i: nat)
    ensures i <= |bytes| && forall k :: 0 <= k < i ==> bytes[k] != '\n' && bytes[k] != '\0'
    ensures i < |bytes| ==> bytes[i] == '\n' || bytes[i] == '\0'
  {
    if bytes == [] || bytes[0] == '\n' || bytes[0] == '\0' then 0 else 1 + FirstEnd(bytes[1..])
  }

  lemma FinishedEnd(bytes: seq<char>, text: string)
    requires Typed(text) && Finished(bytes, text)
    ensures FirstEnd(bytes) == |text|
  {
    assert forall k :: 0 <= k < |text| ==> bytes[k] in text;
  }

  lemma RingBounds(r: Ring, s: Session)
    requires Remembers(r, s)
    ensures 0 <= r.idx < NUM_HISTORY && 0 <= r.base < NUM_HISTORY
  {
  }

  lemma UppedMoves(s: Session)
    requires Proper(s)
    ensures if s.browse == Depth(s) then Upped(s) == s
            else Upped(s).browse != s.browse && Upped(s).cursor == |Upped(s).text|
  {
  }

  lemma DownedMoves(s: Session)
    requires Proper(s)
    ensures if s.browse == 0 then Downed(s) == s
            else Downed(s).browse != s.browse && Downed(s).cursor == |Downed(s).text|
  {
  }

  lemma CanErase(g: Grid, k: nat)
    requires ErasableTimes(g, k + 1)
    ensures ErasableTimes(g, k) && Erasable(BackspaceTimes(g, k))
  {
  }

  lemma InsertedBytes(bytes: seq<char>, s: Session, c: char)
    requires Proper(s) && |s.text| < MAX_CHARACTERS && c != '\0' && c != '\r'
    requires Holds(bytes, s.text[..s.cursor] + [c] + s.text[s.cursor..])
    ensures Holds(bytes, Inserted(s, c).text)
    ensures bytes[s.cursor..|s.text| + 1] == [c] + Echo.Tail(s) && '\r' !in bytes[s.cursor..|s.text| + 1]
  {
    var text := s.text[..s.cursor] + [c] + s.text[s.cursor..];
    assert bytes[s.cursor..|s.text| + 1] == text[s.cursor..] == [c] + Echo.Tail(s);
  }

  lemma ErasedBytes(bytes: seq<char>, s: Session)
    requires Proper(s) && s.cursor > 0
    requires Holds(bytes, s.text[..s.cursor - 1] + s.text[s.cursor..])
    ensures Holds(bytes, Erased(s).text)
    ensures bytes[s.cursor - 1..|s.text|] == Echo.Tail(s) + ['\0'] && '\r' !in bytes[s.cursor - 1..|s.text|]
  {
    var text := s.text[..s.cursor - 1] + s.text[s.cursor..];
    assert text[s.cursor - 1..] == Echo.Tail(s);
    assert bytes[s.cursor - 1..|s.text|] == Echo.Tail(s) + ['\0'];
  }
}
