/** Two ways of cutting a text into rows: at its newlines only, and at its newlines or after
    `width` characters, whichever comes first. The console lays text out the second way with
    80 columns, and grep reads its files the second way with a 1024-byte buffer. */
module TextRows {

  /** The index of the first newline, or the length of the text when it has none. */
  function LineEnd(s: string): (e: nat)
    ensures e <= |s|
    ensures e < |s| ==> s[e] == '\n'
    ensures forall i :: 0 <= i < e ==> s[i] != '\n'
  {
    if s == [] || s[0] == '\n' then 0 else 1 + LineEnd(s[1..])
  }

  lemma LineEndUnique(s: string, e: nat)
    requires e <= |s|
    requires e < |s| ==> s[e] == '\n'
    requires forall i :: 0 <= i < e ==> s[i] != '\n'
    ensures LineEnd(s) == e
  {
  }

  /** The lines of a text; what follows the last newline is a line too, possibly empty. */
  function Lines(s: string): (rows: seq<string>)
    ensures rows != []
    decreases |s|
  {
    var e := LineEnd(s);
    if e == |s| then [s] else [s[..e]] + Lines(s[e + 1..])
  }

  /** The rows of a text on paper `width` columns wide. A newline that arrives on a full row finds
      the paper already advanced, and so leaves an empty row behind. */
  function Wrap(s: string, width: nat): (rows: seq<string>)
    requires 0 < width
    ensures rows != []
    decreases |s|
  {
    var e := LineEnd(s);
    if e < |s| && e < width then [s[..e]] + Wrap(s[e + 1..], width)
    else if |s| < width then [s]
    else [s[..width]] + Wrap(s[width..], width)
  }

  /** The row that is still being written. */
  function OpenRow(s: string, width: nat): string
    requires 0 < width
  {
    Wrap(s, width)[|Wrap(s, width)| - 1]
  }

  lemma {:induction false} WrapRowBounds(s: string, width: nat)
    requires 0 < width
    ensures forall r :: 0 <= r < |Wrap(s, width)| ==> |Wrap(s, width)[r]| <= width && '\n' !in Wrap(s, width)[r]
    ensures |OpenRow(s, width)| < width
    decreases |s|
  {
    var e := LineEnd(s);
    if e < |s| && e < width {
      WrapRowBounds(s[e + 1..], width);
    } else if |s| >= width {
      WrapRowBounds(s[width..], width);
    }
  }

  /** A row that a newline ends. */
  lemma WrapEnded(row: string, rest: string, width: nat)
    requires '\n' !in row && |row| < width
    ensures Wrap(row + ['\n'] + rest, width) == [row] + Wrap(rest, width)
  {
    var t := row + ['\n'] + rest;
    LineEndUnique(t, |row|);
    assert t[..|row|] == row && t[|row| + 1..] == rest;
  }

  /** A row that the last column ends. */
  lemma WrapFull(row: string, rest: string, width: nat)
    requires '\n' !in row && |row| == width && 0 < width
    ensures Wrap(row + rest, width) == [row] + Wrap(rest, width)
  {
    var t := row + rest;
    assert LineEnd(t) >= width by {
      assert forall i :: 0 <= i < width ==> t[i] == row[i];
    }
    assert t[..width] == row && t[width..] == rest;
  }

  /** A row that nothing has ended yet. */
  lemma WrapOpen(row: string, width: nat)
    requires '\n' !in row && |row| < width
    ensures Wrap(row, width) == [row]
  {
    LineEndUnique(row, |row|);
  }

  /** The effect of one more character on laid out rows: it joins the open row, and closes it if it
      is a newline or fills the last column. */
  function Extend(rows: seq<string>, c: char, width: nat): seq<string>
    requires 0 < width && rows != []
  {
    var closed, open := rows[..|rows| - 1], rows[|rows| - 1];
    if c == '\n' then closed + [open, []]
    else if |open| == width - 1 then closed + [open + [c], []]
    else closed + [open + [c]]
  }

  lemma ExtendLater(row: string, rows: seq<string>, c: char, width: nat)
    requires 0 < width && rows != []
    ensures Extend([row] + rows, c, width) == [row] + Extend(rows, c, width)
  {
    assert ([row] + rows)[..|rows|] == [row] + rows[..|rows| - 1];
  }

  /** Laying out a text is laying out its characters one at a time. */
  lemma {:induction false} WrapAppend(s: string, c: char, width: nat)
    requires 0 < width
    ensures Wrap(s + [c], width) == Extend(Wrap(s, width), c, width)
    decreases |s|
  {
    hide Wrap, Extend;
    var e := LineEnd(s);
    if e < |s| && e < width {
      var row, rest := s[..e], s[e + 1..];
      assert s == row + ['\n'] + rest && s + [c] == row + ['\n'] + (rest + [c]);
      WrapEnded(row, rest, width);
      WrapEnded(row, rest + [c], width);
      WrapAppend(rest, c, width);
      ExtendLater(row, Wrap(rest, width), c, width);
    } else if |s| < width {
      WrapAppendOpen(s, c, width);
    } else {
      var row, rest := s[..width], s[width..];
      assert s == row + rest && s + [c] == row + (rest + [c]);
      WrapFull(row, rest, width);
      WrapFull(row, rest + [c], width);
      WrapAppend(rest, c, width);
      ExtendLater(row, Wrap(rest, width), c, width);
    }
  }

  lemma WrapAppendOpen(s: string, c: char, width: nat)
    requires '\n' !in s && |s| < width
    ensures Wrap(s + [c], width) == Extend(Wrap(s, width), c, width)
  {
    hide Wrap;
    WrapOpen(s, width);
    WrapOpen([], width);
    if c == '\n' {
      assert s + [c] == s + ['\n'] + [];
      WrapEnded(s, [], width);
    } else if |s| == width - 1 {
      assert s + [c] == (s + [c]) + [];
      WrapFull(s + [c], [], width);
    } else {
      WrapOpen(s + [c], width);
    }
  }

  /** Wrapping a text is wrapping its lines one after the other. */
  lemma {:induction false} WrapByLine(line: string, rest: string, width: nat)
    requires 0 < width && '\n' !in line
    ensures Wrap(line + ['\n'] + rest, width) == Wrap(line, width) + Wrap(rest, width)
    decreases |line|
  {
    hide Wrap;
    if |line| < width {
      WrapEnded(line, rest, width);
      WrapOpen(line, width);
    } else {
      var row, more := line[..width], line[width..];
      assert line == row + more && line + ['\n'] + rest == row + (more + ['\n'] + rest);
      WrapFull(row, more, width);
      WrapFull(row, more + ['\n'] + rest, width);
      WrapByLine(more, rest, width);
    }
  }
}
