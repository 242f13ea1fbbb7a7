/** The fish program reads two pictures side by side, line by line, and lets every cell where one of
    them is not blank blink between the two. */
module Frames {
  import opened Blink
  import opened BlinkTiming
  import opened TextRows

  const LENGTH: word := 15
  const OFFSET: nat := 40
  const COLUMNS: nat := 80

  // ---------- What the pictures ask for ----------

  function RowOf(file: string, row: nat): string {
    if row < |Lines(file)| then Lines(file)[row] else ""
  }

  function At(line: string, col: nat): char {
    if col < |line| then line[col] else ' '
  }

  /** The picture, padded with spaces on all sides. */
  function Pixel(file: string, row: nat, col: nat): char {
    At(RowOf(file, row), col)
  }

  /** How many rows of the file end before its byte `i`. */
  function RowAt(file: string, i: nat): nat
    requires i <= |file|
  {
    if i == 0 then 0 else RowAt(file, i - 1) + if file[i - 1] == '\n' then 1 else 0
  }

  /** How many bytes there are between the start of its row and byte `i`. */
  function ColAt(file: string, i: nat): nat
    requires i <= |file|
  {
    if i == 0 || file[i - 1] == '\n' then 0 else ColAt(file, i - 1) + 1
  }

  lemma {:induction false} InFirstRow(file: string, i: nat)
    requires i <= LineEnd(file)
    ensures RowAt(file, i) == 0 && ColAt(file, i) == i
  {
    if i != 0 {
      InFirstRow(file, i - 1);
    }
  }

  lemma {:induction false} InLaterRow(file: string, n: nat, i: nat)
    requires n == LineEnd(file) < i <= |file|
    ensures var rest := file[n + 1..];
            RowAt(file, i) == 1 + RowAt(rest, i - n - 1) && ColAt(file, i) == ColAt(rest, i - n - 1)
  {
    hide LineEnd;
    if i == n + 1 {
      InFirstRow(file, n);
    } else {
      InLaterRow(file, n, i - 1);
      assert file[n + 1..][i - n - 2] == file[i - 1];
    }
  }

  /** The picture has each byte of the file at the row and the column where it stands. */
  lemma {:induction false} PixelAt(file: string, i: nat)
    requires i < |file| && file[i] != '\n'
    ensures Pixel(file, RowAt(file, i), ColAt(file, i)) == file[i]
    decreases |file|
  {
    hide LineEnd;
    var n := LineEnd(file);
    if i <= n {
      InFirstRow(file, i);
    } else {
      InLaterRow(file, n, i);
      PixelAt(file[n + 1..], i - n - 1);
    }
  }

  /** And everywhere else it is blank. */
  lemma {:induction false} PixelFrom(file: string, row: nat, col: nat) returns (i: nat)
    requires Pixel(file, row, col) != ' '
    ensures i < |file| && file[i] != '\n' && RowAt(file, i) == row && ColAt(file, i) == col
    decreases |file|
  {
    hide LineEnd;
    var n := LineEnd(file);
    if row == 0 {
      i := col;
      InFirstRow(file, i);
    } else {
      var j := PixelFrom(file[n + 1..], row - 1, col);
      i := j + n + 1;
      InLaterRow(file, n, i);
    }
  }

  function LocationOf(row: nat, col: nat): word {
    (row * COLUMNS + col + OFFSET) % 0x10000
  }

  predicate Blank(line0: string, line1: string, col: nat) {
    At(line0, col) == ' ' && At(line1, col) == ' '
  }

  function UserAt(line0: string, line1: string, row: nat, col: nat): Blinker {
    Blinker(LocationOf(row, col), At(line0, col), At(line1, col), LENGTH, LENGTH, 0, 0)
  }

  /** What is added for the first `col` columns of a row. */
  function RowUsers(line0: string, line1: string, row: nat, col: nat): seq<Blinker> {
    if col == 0 then []
    else RowUsers(line0, line1, row, col - 1)
         + if Blank(line0, line1, col - 1) then [] else [UserAt(line0, line1, row, col - 1)]
  }

  /** What is added for a row that is read to the end of both lines. */
  function WholeRow(file0: string, file1: string, row: nat): seq<Blinker> {
    var line0, line1 := RowOf(file0, row), RowOf(file1, row);
    RowUsers(line0, line1, row, Longer(|line0|, |line1|))
  }

  function Longer(a: nat, b: nat): nat {
    if a < b then b else a
  }

  /** What is added for the first `rows` rows. */
  function FrameUsers(file0: string, file1: string, rows: nat): seq<Blinker> {
    if rows == 0 then []
    else FrameUsers(file0, file1, rows - 1) + WholeRow(file0, file1, rows - 1)
  }

  function Height(file0: string, file1: string): nat {
    Longer(|Lines(file0)|, |Lines(file1)|)
  }

  function AddAll(d: Device, users: seq<Blinker>): Device {
    if users == [] then d else AddDevice(AddAll(d, users[..|users| - 1]), users[|users| - 1])
  }

  lemma AddAllNext(d: Device, users: seq<Blinker>, user: Blinker)
    ensures AddAll(d, users + [user]) == AddDevice(AddAll(d, users), user)
  {
    assert (users + [user])[..|users|] == users;
  }

  /** What was in the structure's countdown and status does not matter. */
  lemma AddIgnoresTiming(d: Device, user: Blinker, garbage: Blinker)
    requires SameSettings(garbage, user)
    ensures AddDevice(d, garbage) == AddDevice(d, user)
  {
  }

  // ---------- Reading ----------

  class Reader {
    const content: string
    var pos: nat

    constructor (content: string)
      ensures this.content == content && pos == 0
    {
      this.content, pos := content, 0;
    }

    /** One byte, or none at the end of the file. */
    method Read() returns (n: nat, c: char)
      requires pos <= |content|
      modifies this
      ensures if old(pos) < |content| then n == 1 && c == content[old(pos)] && pos == old(pos) + 1
              else n == 0 && pos == old(pos)
    {
      if pos == |content| {
        return 0, '\0';
      }
      n, c := 1, content[pos];
      pos := pos + 1;
    }
  }

  /** The line of the file that starts at `p`; none at all once the file has ended. */
  function LineFrom(content: string, p: nat, ended: bool): string
    requires p <= |content|
  {
    if ended then "" else content[p..p + LineEnd(content[p..])]
  }

  /** The reader inside the line that starts at `p`, having been asked for `col` characters. */
  ghost predicate Reading(content: string, pos: nat, p: nat, ended: bool, col: nat, c: char, eof: bool)
    requires p <= |content|
  {
    var e := LineEnd(content[p..]);
    if ended then pos == p && c == '\n' && eof
    else if col <= e then pos == p + col && c != '\n' && !eof
    else if p + e < |content| then pos == p + e + 1 && c == '\n' && !eof
    else pos == |content| && c == '\n' && eof
  }

  /** The next character of the line; at the end of the line, a newline again and again. */
  method NextChar(file: Reader, c0: char, eof0: bool, ghost p: nat, ghost ended: bool, ghost col: nat)
    returns (c: char, eof: bool)
    requires p <= |file.content| && Reading(file.content, file.pos, p, ended, col, c0, eof0)
    modifies file
    ensures Reading(file.content, file.pos, p, ended, col + 1, c, eof)
    ensures var line := LineFrom(file.content, p, ended);
            c == if col < |line| then line[col] else '\n'
  {
    c, eof := c0, eof0;
    if c != '\n' {
      ghost var rest := file.content[p..];
      assert file.pos < |file.content| ==> file.content[file.pos] == rest[col];
      var n, r := file.Read();
      if n == 0 {
        c := '\n';
        eof := true;
      } else {
        c := r;
      }
    }
  }

  /** How far the reading of a file has got at the start of a row. */
  ghost predicate AtRow(content: string, p: nat, ended: bool, row: nat) {
    && p <= |content|
    && if ended then row >= |Lines(content)| else row < |Lines(content)| && Lines(content[p..]) == Lines(content)[row..]
  }

  lemma AtRowBounds(content: string, p: nat, ended: bool, row: nat)
    requires AtRow(content, p, ended, row)
    ensures p <= |content| && (ended <==> row >= |Lines(content)|)
  {
  }

  lemma LineIsRow(content: string, p: nat, ended: bool, row: nat)
    requires AtRow(content, p, ended, row)
    ensures LineFrom(content, p, ended) == RowOf(content, row)
  {
    if !ended {
      assert Lines(content)[row..][0] == Lines(content)[row];
      var e := LineEnd(content[p..]);
      assert content[p..][..e] == content[p..p + e];
    }
  }

  /** After a whole line the reading is at the start of the next. */
  lemma NextRow(content: string, pos: nat, p: nat, ended: bool, row: nat, col: nat, eof: bool)
    requires AtRow(content, p, ended, row)
    requires Reading(content, pos, p, ended, col, '\n', eof)
    ensures AtRow(content, pos, eof, row + 1)
  {
    hide LineEnd;
    if !ended {
      var rest := content[p..];
      var e := LineEnd(rest);
      assert Lines(content)[row..][1..] == Lines(content)[row + 1..];
      if p + e < |content| {
        assert rest[e + 1..] == content[p + e + 1..];
      }
    }
  }

  /** What the two characters just read make of a cell. A newline stands for a line that is over. */
  method AddCell(driver: Driver, c0: char, c1: char, row: nat, col: nat, garbage: Blinker,
                 ghost line0: string, ghost line1: string)
    requires driver.Valid()
    requires '\n' !in line0 && '\n' !in line1
    requires c0 == (if col < |line0| then line0[col] else '\n') && c1 == (if col < |line1| then line1[col] else '\n')
    requires Blank(line0, line1, col) || LocationOf(row, col) != 0
    modifies driver, driver.pool, driver.vmem
    ensures driver.Valid()
    ensures driver.View() == if Blank(line0, line1, col) then old(driver.View())
                             else AddDevice(old(driver.View()), UserAt(line0, line1, row, col))
  {
    hide AddDevice, Accepts, Linked, NodesOf;
    if (c0 != ' ' && c0 != '\n') || (c1 != ' ' && c1 != '\n') {
      var user := Blinker(LocationOf(row, col), if c0 == '\n' then ' ' else c0, if c1 == '\n' then ' ' else c1,
                          LENGTH, LENGTH, garbage.countdown, garbage.status);
      AddIgnoresTiming(driver.View(), UserAt(line0, line1, row, col), user);
      AddRejected(driver.View(), user);
      var ret := driver.IoctlAdd(user, NIL);
    }
  }

  lemma AddRejected(d: Device, user: Blinker)
    ensures !Accepts(d, user) ==> AddDevice(d, user) == d
  {
  }

  /** One row: reads both lines to their ends and adds what is not blank. */
  method AddRow(driver: Driver, file0: Reader, file1: Reader, c0In: char, c1In: char, eof0In: bool, eof1In: bool,
                row: nat, garbage: Blinker, ghost line0: string, ghost line1: string, ghost d: Device,
                ghost before: seq<Blinker>)
    returns (eof0: bool, eof1: bool, ghost col: nat)
    requires driver.Valid() && driver.View() == AddAll(d, before)
    requires file0 != file1 && file0.pos <= |file0.content| && file1.pos <= |file1.content|
    requires Reading(file0.content, file0.pos, file0.pos, eof0In, 0, c0In, eof0In)
    requires Reading(file1.content, file1.pos, file1.pos, eof1In, 0, c1In, eof1In)
    requires line0 == LineFrom(file0.content, file0.pos, eof0In) && line1 == LineFrom(file1.content, file1.pos, eof1In)
    requires Placed(line0, line1, row)
    modifies driver, driver.pool, driver.vmem, file0, file1
    ensures driver.Valid()
    ensures driver.View() == AddAll(d, before + RowUsers(line0, line1, row, Longer(|line0|, |line1|)))
    ensures Reading(file0.content, file0.pos, old(file0.pos), eof0In, col, '\n', eof0)
    ensures Reading(file1.content, file1.pos, old(file1.pos), eof1In, col, '\n', eof1)
  {
    hide AddDevice, AddAll, Reading, Blank, Linked, NodesOf, UserAt;
    assert '\n' !in line0 && '\n' !in line1 by {
      NoNewline(file0.content, file0.pos, eof0In);
      NoNewline(file1.content, file1.pos, eof1In);
    }
    hide LineFrom;
    ghost var p0, p1 := file0.pos, file1.pos;
    var c0, c1, at := c0In, c1In, 0;
    eof0, eof1, col := eof0In, eof1In, 0;
    ghost var users := before;
    assert before + RowUsers(line0, line1, row, 0) == before;
    while true
      invariant at == col <= Longer(|line0|, |line1|)
      invariant driver.Valid() && driver.View() == AddAll(d, users)
      invariant users == before + RowUsers(line0, line1, row, col)
      invariant Reading(file0.content, file0.pos, p0, eof0In, col, c0, eof0)
      invariant Reading(file1.content, file1.pos, p1, eof1In, col, c1, eof1)
      decreases Longer(|line0|, |line1|) - col
    {
      c0, eof0 := NextChar(file0, c0, eof0, p0, eof0In, col);
      c1, eof1 := NextChar(file1, c1, eof1, p1, eof1In, col);
      if c0 == '\n' && c1 == '\n' {
        assert col == Longer(|line0|, |line1|);
        col := col + 1;
        break;
      }
      AddCell(driver, c0, c1, row, at, garbage, line0, line1);
      if !Blank(line0, line1, col) {
        AddAllNext(d, users, UserAt(line0, line1, row, col));
        users := users + [UserAt(line0, line1, row, col)];
      }
      RowUsersNext(before, line0, line1, row, col);
      at, col := at + 1, col + 1;
    }
  }

  lemma NoNewline(content: string, p: nat, ended: bool)
    requires p <= |content|
    ensures '\n' !in LineFrom(content, p, ended)
  {
    if !ended {
      var e := LineEnd(content[p..]);
      assert content[p..p + e] == content[p..][..e];
    }
  }

  lemma RowUsersNext(before: seq<Blinker>, line0: string, line1: string, row: nat, col: nat)
    ensures before + RowUsers(line0, line1, row, col + 1)
         == (before + RowUsers(line0, line1, row, col)) + if Blank(line0, line1, col) then []
           else [UserAt(line0, line1, row, col)]
  {
  }

  /** No blinker of the row lands at location 0, where the pool would take it for a free slot. */
  ghost predicate Placed(line0: string, line1: string, row: nat) {
    forall col :: 0 <= col < Longer(|line0|, |line1|) && !Blank(line0, line1, col) ==> LocationOf(row, col) != 0
  }

  /** Adds both pictures. */
  method AddFrames(driver: Driver, file0: Reader, file1: Reader, garbage: Blinker)
    requires driver.Valid()
    requires file0 != file1 && file0.pos == 0 && file1.pos == 0
    requires forall row :: 0 <= row < Height(file0.content, file1.content) ==>
               Placed(RowOf(file0.content, row), RowOf(file1.content, row), row)
    modifies driver, driver.pool, driver.vmem, file0, file1
    ensures driver.Valid()
    ensures driver.View() == AddAll(old(driver.View()),
        FrameUsers(file0.content, file1.content, Height(file0.content, file1.content)))
  {
    hide AddDevice, Reading, Lines, Placed, Linked, NodesOf, AtRow, LineFrom, FrameUsers, AddAll, RowOf;
    ghost var d, f0, f1 := driver.View(), file0.content, file1.content;
    ghost var height := Height(f0, f1);
    var row, c0, c1 := 0, '0', '0';
    var eof0, eof1 := false, false;
    StartOfFile(f0);
    StartOfFile(f1);
    AddNone(d, f0, f1);
    while !eof0 || !eof1
      invariant driver.Valid() && driver.View() == AddAll(d, FrameUsers(f0, f1, row))
      invariant c0 == (if eof0 then '\n' else '0') && c1 == if eof1 then '\n' else '0'
      invariant AtRow(f0, file0.pos, eof0, row) && AtRow(f1, file1.pos, eof1, row)
      invariant row <= height && (eof0 && eof1 ==> row == height)
      decreases height - row
    {
      AtRowBounds(f0, file0.pos, eof0, row);
      AtRowBounds(f1, file1.pos, eof1, row);
      LineIsRow(f0, file0.pos, eof0, row);
      LineIsRow(f1, file1.pos, eof1, row);
      RowStart(f0, file0.pos, eof0, c0);
      RowStart(f1, file1.pos, eof1, c1);
      ghost var p0, p1, e0, e1 := file0.pos, file1.pos, eof0, eof1;
      ghost var col: nat;
      eof0, eof1, col := AddRow(driver, file0, file1, c0, c1, eof0, eof1, row, garbage,
                                RowOf(f0, row), RowOf(f1, row), d, FrameUsers(f0, f1, row));
      NextRow(f0, file0.pos, p0, e0, row, col, eof0);
      NextRow(f1, file1.pos, p1, e1, row, col, eof1);
      c0 := if eof0 then '\n' else '0';
      c1 := if eof1 then '\n' else '0';
      FrameUsersNext(f0, f1, row);
      row := row + 1;
      AtRowBounds(f0, file0.pos, eof0, row);
      AtRowBounds(f1, file1.pos, eof1, row);
    }
  }

  lemma FrameUsersNext(file0: string, file1: string, row: nat)
    ensures FrameUsers(file0, file1, row + 1) == FrameUsers(file0, file1, row) + WholeRow(file0, file1, row)
  {
  }

  lemma AddNone(d: Device, file0: string, file1: string)
    ensures AddAll(d, FrameUsers(file0, file1, 0)) == d
  {
  }

  lemma StartOfFile(content: string)
    ensures AtRow(content, 0, false, 0)
  {
    assert content[0..] == content && Lines(content)[0..] == Lines(content);
  }

  lemma RowStart(content: string, p: nat, ended: bool, c: char)
    requires p <= |content| && c == if ended then '\n' else '0'
    ensures Reading(content, p, p, ended, 0, c, ended)
  {
  }
}
