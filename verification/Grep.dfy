/** The user program grep: it streams a file through one 1024-byte buffer, and shifts an unfinished
    line to the front of the buffer before it reads on. */
module Grep {
  import opened CStrings
  import opened FileSystem
  import opened Seqs
  import opened TextRows

  const BUFSIZE: nat := 1024

  // ---------- What grep is for ----------

  predicate MatchesAt(line: string, pattern: string, i: nat) {
    i + |pattern| <= |line| && line[i..i + |pattern|] == pattern
  }

  /** The line holds the pattern. The program never finds an empty pattern. */
  predicate Contains(line: string, pattern: string) {
    pattern != "" && exists i :: 0 <= i < |line| && MatchesAt(line, pattern, i)
  }

  /** That is, the line is the pattern with something in front and something behind. */
  lemma ContainsMeans(line: string, pattern: string)
    ensures Contains(line, pattern) <==> pattern != "" && exists a, b :: IsBetween(line, a, pattern, b)
  {
    if Contains(line, pattern) {
      var i :| 0 <= i < |line| && MatchesAt(line, pattern, i);
      assert IsBetween(line, line[..i], pattern, line[i + |pattern|..]);
    }
    if pattern != "" && exists a, b :: IsBetween(line, a, pattern, b) {
      var a, b :| IsBetween(line, a, pattern, b);
      assert MatchesAt(line, pattern, |a|) && |a| < |line|;
    }
  }

  predicate IsBetween(line: string, a: string, pattern: string, b: string) {
    line == a + pattern + b
  }

  /** The rows that hold the pattern, in order. */
  function Hits(rows: seq<string>, pattern: string): (hits: seq<string>) {
    if rows == [] then []
    else (if Contains(rows[0], pattern) then [rows[0]] else []) + Hits(rows[1..], pattern)
  }

  lemma {:induction false} HitsMembers(rows: seq<string>, pattern: string)
    ensures forall h :: h in Hits(rows, pattern) <==> h in rows && Contains(h, pattern)
  {
    if rows != [] {
      HitsMembers(rows[1..], pattern);
    }
  }

  /** The writes that report one matching line. */
  function ReportLine(fname: string, line: string): seq<string> {
    [fname, ":", line, "\n"]
  }

  function Report(fname: string, hits: seq<string>): seq<string> {
    if hits == [] then [] else Report(fname, hits[..|hits| - 1]) + ReportLine(fname, hits[|hits| - 1])
  }

  lemma {:induction false} HitsConcat(a: seq<string>, b: seq<string>, pattern: string)
    ensures Hits(a + b, pattern) == Hits(a, pattern) + Hits(b, pattern)
  {
    hide Contains;
    if a == [] {
      assert a + b == b;
    } else {
      assert (a + b)[1..] == a[1..] + b;
      HitsConcat(a[1..], b, pattern);
    }
  }

  lemma HitsOne(row: string, rows: seq<string>, pattern: string)
    ensures Hits([row] + rows, pattern) == (if Contains(row, pattern) then [row] else []) + Hits(rows, pattern)
  {
    assert ([row] + rows)[1..] == rows;
  }

  lemma ContainsInfix(line: string, lo: nat, hi: nat, pattern: string)
    requires lo <= hi <= |line| && Contains(line[lo..hi], pattern)
    ensures Contains(line, pattern)
  {
    var piece := line[lo..hi];
    var i :| 0 <= i < |piece| && MatchesAt(piece, pattern, i);
    var n := |pattern|;
    SliceOfSlice(line, lo, hi, i, i + n);
    assert MatchesAt(line, pattern, lo + i);
  }

  // ---------- Streaming against searching whole lines ----------

  /** A line that fits the buffer is found or not found whole. */
  lemma HitsOfFittingLine(line: string, pattern: string)
    requires '\n' !in line && |line| <= BUFSIZE
    ensures Hits(Wrap(line, BUFSIZE), pattern) == Hits([line], pattern)
  {
    hide Wrap, Hits, Contains;
    if |line| == BUFSIZE {
      assert line + "" == line && [line] + [] == [line];
      WrapFull(line, "", BUFSIZE);
      WrapOpen("", BUFSIZE);
      HitsOne(line, [""], pattern);
      HitsOne(line, [], pattern);
      HitsOfEmptyRow(pattern);
    } else {
      WrapOpen(line, BUFSIZE);
    }
  }

  lemma HitsOfEmptyRow(pattern: string)
    ensures Hits([""], pattern) == Hits([], pattern)
  {
    HitsOne("", [], pattern);
  }

  /** No piece of a line without the pattern has it. */
  lemma {:induction false} HitsOfPlainLine(line: string, pattern: string)
    requires '\n' !in line && !Contains(line, pattern)
    ensures Hits(Wrap(line, BUFSIZE), pattern) == []
    decreases |line|
  {
    hide Wrap, Hits, Contains;
    if |line| >= BUFSIZE {
      var head, tail := line[..BUFSIZE], line[BUFSIZE..];
      assert line == head + tail && line[0..BUFSIZE] == head && line[BUFSIZE..|line|] == tail;
      if Contains(head, pattern) {
        ContainsInfix(line, 0, BUFSIZE, pattern);
      }
      if Contains(tail, pattern) {
        ContainsInfix(line, BUFSIZE, |line|, pattern);
      }
      WrapFull(head, tail, BUFSIZE);
      HitsOfPlainLine(tail, pattern);
      HitsOne(head, Wrap(tail, BUFSIZE), pattern);
    } else {
      WrapOpen(line, BUFSIZE);
      assert [line] + [] == [line];
      HitsOne(line, [], pattern);
    }
    HitsOfNone(pattern);
  }

  lemma HitsOfNone(pattern: string)
    ensures Hits([], pattern) == []
  {
  }

  /** Every row that holds the pattern fits the buffer. */
  ghost predicate HitsFit(rows: seq<string>, pattern: string) {
    forall r :: 0 <= r < |rows| && Contains(rows[r], pattern) ==> |rows[r]| <= BUFSIZE
  }

  lemma HitsFitSplit(row: string, rows: seq<string>, pattern: string)
    requires HitsFit([row] + rows, pattern)
    ensures Contains(row, pattern) ==> |row| <= BUFSIZE
    ensures HitsFit(rows, pattern)
  {
    hide Contains;
    assert ([row] + rows)[0] == row;
    assert forall r :: 0 <= r < |rows| ==> ([row] + rows)[r + 1] == rows[r];
  }

  lemma HitsOfOneLine(line: string, pattern: string)
    requires '\n' !in line && (Contains(line, pattern) ==> |line| <= BUFSIZE)
    ensures Hits(Wrap(line, BUFSIZE), pattern) == Hits([line], pattern)
  {
    if Contains(line, pattern) {
      HitsOfFittingLine(line, pattern);
    } else {
      HitsOfPlainLine(line, pattern);
      HitsOne(line, [], pattern);
    }
  }

  lemma {:induction false} StreamingFindsFittingLines(text: string, pattern: string)
    requires HitsFit(Lines(text), pattern)
    ensures Hits(Wrap(text, BUFSIZE), pattern) == Hits(Lines(text), pattern)
    decreases |text|
  {
    hide Wrap, Hits, Contains;
    var e := LineEnd(text);
    if e == |text| {
      assert Lines(text)[0] == text;
      HitsOfOneLine(text, pattern);
    } else {
      var line, rest := text[..e], text[e + 1..];
      LinesSplit(text);
      HitsFitSplit(line, Lines(rest), pattern);
      StreamingFindsFittingLines(rest, pattern);
      HitsOfOneLine(line, pattern);
      HitsOfSplit(line, rest, pattern);
    }
  }

  lemma LinesSplit(text: string)
    requires LineEnd(text) < |text|
    ensures var e := LineEnd(text);
            var line, rest := text[..e], text[e + 1..];
            text == line + ['\n'] + rest && Lines(text) == [line] + Lines(rest)
  {
    hide LineEnd;
  }

  lemma HitsOfSplit(line: string, rest: string, pattern: string)
    requires '\n' !in line
    ensures Hits(Wrap(line + ['\n'] + rest, BUFSIZE), pattern)
         == Hits(Wrap(line, BUFSIZE), pattern) + Hits(Wrap(rest, BUFSIZE), pattern)
    ensures Hits([line] + Lines(rest), pattern) == Hits([line], pattern) + Hits(Lines(rest), pattern)
  {
    WrapByLine(line, rest, BUFSIZE);
    HitsConcat(Wrap(line, BUFSIZE), Wrap(rest, BUFSIZE), pattern);
    HitsConcat([line], Lines(rest), pattern);
  }

  /** Streaming reports what searching the whole lines reports exactly when every line that holds the
      pattern fits the buffer. */
  lemma StreamingEqualsBatch(text: string, pattern: string)
    ensures Hits(Wrap(text, BUFSIZE), pattern) == Hits(Lines(text), pattern) <==> HitsFit(Lines(text), pattern)
  {
    if HitsFit(Lines(text), pattern) {
      StreamingFindsFittingLines(text, pattern);
    } else {
      var r :| 0 <= r < |Lines(text)| && Contains(Lines(text)[r], pattern) && |Lines(text)[r]| > BUFSIZE;
      var line := Lines(text)[r];
      WrapRowBounds(text, BUFSIZE);
      HitsMembers(Lines(text), pattern);
      HitsMembers(Wrap(text, BUFSIZE), pattern);
      assert line in Hits(Lines(text), pattern) && line !in Hits(Wrap(text, BUFSIZE), pattern);
    }
  }

  /** The characters that a sequence of writes puts on the terminal. */
  function Printed(writes: seq<string>): string {
    if writes == [] then "" else writes[0] + Printed(writes[1..])
  }

  lemma {:induction false} PrintedParts(a: seq<string>, b: seq<string>)
    ensures Printed(a + b) == Printed(a) + Printed(b)
  {
    if a == [] {
      assert a + b == b;
    } else {
      PrintedParts(a[1..], b);
      assert (a + b)[0] == a[0] && (a + b)[1..] == a[1..] + b;
    }
  }

  lemma {:induction false} ReportParts(fname: string, a: seq<string>, b: seq<string>)
    ensures Report(fname, a + b) == Report(fname, a) + Report(fname, b)
  {
    if b == [] {
      assert a + b == a;
    } else {
      ReportParts(fname, a, b[..|b| - 1]);
      assert (a + b)[..|a + b| - 1] == a + b[..|b| - 1];
    }
  }

  lemma PrintedOne(w: string, rest: seq<string>)
    ensures Printed([w] + rest) == w + Printed(rest)
  {
    assert ([w] + rest)[1..] == rest;
  }

  lemma PrintedLine(fname: string, line: string)
    ensures Printed(ReportLine(fname, line)) == fname + ":" + (line + ['\n'])
  {
    hide Printed;
    PrintedOne("\n", []);
    PrintedOne(line, ["\n"]);
    PrintedOne(":", [line, "\n"]);
    PrintedOne(fname, [":", line, "\n"]);
    PrintedNone();
    assert [line] + ["\n"] == [line, "\n"] && [":"] + [line, "\n"] == [":", line, "\n"] && ["\n"] + [] == ["\n"];
    assert [fname] + [":", line, "\n"] == ReportLine(fname, line) && "\n" + "" == ['\n'];
    ConcatAssociative(fname, ":", line + ['\n']);
  }

  lemma PrintedNone()
    ensures Printed([]) == ""
  {
  }

  lemma PrintedFirst(fname: string, hits: seq<string>)
    requires hits != []
    ensures Printed(Report(fname, hits)) == fname + ":" + (hits[0] + ['\n'] + Printed(Report(fname, hits[1..])))
  {
    hide Printed, ReportLine;
    var front, line, rest := fname + ":", hits[0] + ['\n'], Printed(Report(fname, hits[1..]));
    assert hits == [hits[0]] + hits[1..];
    ReportParts(fname, [hits[0]], hits[1..]);
    ReportOne(fname, hits[0]);
    PrintedParts(ReportLine(fname, hits[0]), Report(fname, hits[1..]));
    PrintedLine(fname, hits[0]);
    ConcatAssociative(front, line, rest);
  }

  lemma ReportOne(fname: string, line: string)
    ensures Report(fname, [line]) == ReportLine(fname, line)
  {
    assert [line][..0] == [];
  }

  /** Different findings look different on the terminal: rows without newlines can be told from the
      characters printed for them. */
  lemma {:induction false} PrintedInjective(fname: string, a: seq<string>, b: seq<string>)
    requires forall h :: h in a || h in b ==> '\n' !in h
    requires Printed(Report(fname, a)) == Printed(Report(fname, b))
    ensures a == b
    decreases |a|
  {
    hide Report, Printed;
    NothingPrinted(fname, a);
    NothingPrinted(fname, b);
    if a != [] && b != [] {
      PrintedFirst(fname, a);
      PrintedFirst(fname, b);
      var x, y := Printed(Report(fname, a[1..])), Printed(Report(fname, b[1..]));
      var front := fname + ":";
      SameBehind(front, a[0] + ['\n'] + x, b[0] + ['\n'] + y);
      assert a[0] in a && b[0] in b;
      SameFirstLine(a[0], x, b[0], y);
      PrintedInjective(fname, a[1..], b[1..]);
      assert a == [a[0]] + a[1..] && b == [b[0]] + b[1..];
    }
  }

  lemma NothingPrinted(fname: string, hits: seq<string>)
    ensures Printed(Report(fname, hits)) == "" <==> hits == []
  {
    if hits != [] {
      PrintedFirst(fname, hits);
    }
  }

  lemma SameBehind(front: string, x: string, y: string)
    requires front + x == front + y
    ensures x == y
  {
    assert (front + x)[|front|..] == x && (front + y)[|front|..] == y;
  }

  lemma SameFirstLine(a: string, x: string, b: string, y: string)
    requires '\n' !in a && '\n' !in b && a + ['\n'] + x == b + ['\n'] + y
    ensures a == b && x == y
  {
    var s := a + ['\n'] + x;
    LineEndUnique(s, |a|);
    LineEndUnique(s, |b|);
    assert s[..|a|] == a && s[..|b|] == b && s[|a| + 1..] == x && s[|b| + 1..] == y;
  }

  // ---------- The program ----------

  /** How much a read returns: all that is asked for and left, or what the kernel's own file system does. */
  function ReadAmount(whole: bool, length: nat, pos: nat, n: nat): (amount: nat)
    requires pos <= length
    ensures amount <= n && amount <= length - pos
  {
    if whole then (if n < length - pos then n else length - pos) else ReadCount(length, pos, n)
  }

  /** An open file: an entry of the kernel's table of open files, or, for want of one, a device that
      returns as much as is asked for and left. A read returns -1 once the device has failed, which happens
      when `faultAt` bytes have been delivered; the kernel's fails at once if the index node does not
      exist. */
  class TextFile {
    const content: string
    const faultAt: nat
    const closeFails: bool
    const image: Image
    const entry: OpenFile?
    var pos: nat

    predicate Whole() {
      entry == null
    }

    ghost predicate Valid()
      reads this, entry
    {
      && pos <= |content|
      && (entry != null ==>
            && entry.Reads(image)
            && (entry.inode > image.inodes ==> faultAt == 0)
            && (entry.inode <= image.inodes ==>
                  && |content| < faultAt && content == Content(image, image.nodes[entry.inode])
                  && entry.filePosition == pos))
    }

    constructor OnDevice(content: string, faultAt: nat, closeFails: bool)
      ensures Valid() && Whole() && pos == 0
      ensures this.content == content && this.faultAt == faultAt && this.closeFails == closeFails
    {
      this.content, this.faultAt, this.closeFails, pos := content, faultAt, closeFails, 0;
      image, entry := Image(0, [], []), null;
    }

    constructor OfKernel(image: Image, entry: OpenFile, closeFails: bool)
      requires entry.Reads(image) && entry.filePosition == 0
      ensures Valid() && !Whole() && pos == 0
      ensures this.image == image && this.entry == entry && this.closeFails == closeFails
      ensures entry.inode <= image.inodes ==> content == Content(image, image.nodes[entry.inode]) && |content| < faultAt
      ensures entry.inode > image.inodes ==> faultAt == 0
    {
      this.image, this.entry, this.closeFails, pos := image, entry, closeFails, 0;
      if entry.inode > image.inodes {
        content, faultAt := [], 0;
      } else {
        content := Content(image, image.nodes[entry.inode]);
        faultAt := image.nodes[entry.inode].length + 1;
      }
    }

    /** Whatever the read returns, it can leave anything in the bytes that it was given. */
    method Read(buf: array<char>, at: nat, n: nat) returns (cnt: int)
      requires Valid() && at + n <= buf.Length
      modifies this, entry, buf
      ensures Valid()
      ensures cnt == if faultAt <= old(pos) then -1 else ReadAmount(Whole(), |content|, old(pos), n)
      ensures pos == old(pos) + if cnt < 0 then 0 else cnt
      ensures buf[at..at + (pos - old(pos))] == content[old(pos)..pos]
      ensures forall k :: 0 <= k < buf.Length && !(at <= k < at + n) ==> buf[k] == old(buf[k])
    {
      if entry != null {
        cnt := entry.FileRead(image, buf, at, n);
        if cnt > 0 {
          pos := pos + cnt;
        }
        return;
      }
      if faultAt <= pos {
        return -1;
      }
      cnt := if n < |content| - pos then n else |content| - pos;
      forall k | 0 <= k < cnt {
        buf[at + k] := content[pos + k];
      }
      pos := pos + cnt;
    }
  }

  /** The array holds this NUL-terminated string. */
  ghost predicate Holds(s: array<char>, text: string)
    reads s
  {
    Terminated(s[..], 0) && CString(s[..], 0) == text
  }

  /** Looks for the pattern at each position of the line that ends at the NUL at `hi`. */
  method SearchLine(s: array<char>, sLen: nat, data: array<char>, lo: nat, hi: nat, ghost pattern: string)
    returns (found: bool)
    requires Holds(s, pattern) && sLen == |pattern|
    requires EndsAt(data[..], lo, hi)
    ensures found <==> Contains(data[lo..hi], pattern)
  {
    hide Take, MatchesAt;
    ghost var line := data[lo..hi];
    var check := lo;
    while check < hi
      invariant lo <= check <= hi
      invariant pattern != "" ==> forall i :: 0 <= i < check - lo ==> !MatchesAt(line, pattern, i)
    {
      assert data[check..hi] == line[check - lo..];
      if s[0] == data[check] {
        var r := Strncmp(data, check, s, 0, sLen, hi, sLen);
        assert s[0..sLen] == pattern;
        TakeMatches(line, pattern, check - lo);
        if r == 0 {
          assert MatchesAt(line, pattern, check - lo);
          return true;
        }
      } else if pattern != "" {
        NoMatch(line, pattern, check - lo);
      }
      check := check + 1;
    }
    return false;
  }

  lemma TakeMatches(line: string, pattern: string, i: nat)
    requires i <= |line|
    ensures MatchesAt(line, pattern, i) <==> Take(line[i..], |pattern|) == Take(pattern, |pattern|)
  {
    if i + |pattern| <= |line| {
      assert line[i..][..|pattern|] == line[i..i + |pattern|];
    }
  }

  lemma NoMatch(line: string, pattern: string, i: nat)
    requires i < |line| && pattern != "" && line[i] != pattern[0]
    ensures !MatchesAt(line, pattern, i)
  {
    if i + |pattern| <= |line| {
      assert line[i..i + |pattern|][0] == line[i];
    }
  }

  /** Ends the line at `hi` with a NUL, and reports it if it holds the pattern. */
  method ReportIfFound(s: array<char>, sLen: nat, fname: string, data: array<char>, lo: nat, hi: nat,
                       out0: seq<string>, ghost hits0: seq<string>, ghost pattern: string)
    returns (out: seq<string>, ghost hits: seq<string>)
    requires Holds(s, pattern) && sLen == |pattern|
    requires s != data && lo <= hi < data.Length && '\0' !in data[lo..hi]
    requires out0 == Report(fname, hits0)
    modifies data
    ensures data[hi] == '\0' && forall k :: 0 <= k < data.Length && k != hi ==> data[k] == old(data[k])
    ensures var line := old(data[lo..hi]);
            hits == hits0 + (if Contains(line, pattern) then [line] else [])
    ensures out == Report(fname, hits)
  {
    data[hi] := '\0';
    assert data[lo..hi] == old(data[lo..hi]);
    assert EndsAt(data[..], lo, hi) by {
      assert forall k :: lo <= k < hi ==> data[k] == data[lo..hi][k - lo];
    }
    var found := SearchLine(s, sLen, data, lo, hi, pattern);
    out, hits := out0, hits0;
    if found {
      out, hits := out + ReportLine(fname, data[lo..hi]), hits + [data[lo..hi]];
    }
  }

  /** Shifts the unfinished line to the front of the buffer. */
  method KeepUnfinished(data: array<char>, lineStart: nat, last: nat)
    requires lineStart <= last < data.Length && '\0' !in data[lineStart..last]
    modifies data
    ensures data[..last - lineStart] == old(data[lineStart..last])
    ensures last == data.Length - 1 ==> data[last] == '\0'
    ensures last < data.Length - 1 ==> data[data.Length - 1] == old(data[data.Length - 1])
  {
    ghost var held := data[lineStart..last];
    data[last] := '\0';
    assert data[lineStart..last + 1] == held + ['\0'];
    assert EndsAt(data[..], lineStart, last) by {
      assert forall k :: lineStart <= k < last ==> data[k] == held[k - lineStart];
    }
    Strcpy(data, 0, lineStart, last);
    assert data[..last - lineStart] == data[0..last - lineStart + 1][..|held|];
  }

  /** Advances over one line: to its newline, or to the end of the data. */
  method FindLineEnd(data: array<char>, lineStart: nat, last: nat) returns (lineEnd: nat)
    requires lineStart <= last < data.Length
    ensures lineStart <= lineEnd <= last
    ensures lineEnd - lineStart == LineEnd(data[lineStart..last])
  {
    lineEnd := lineStart;
    while lineEnd < last && '\n' != data[lineEnd]
      invariant lineStart <= lineEnd <= last
      invariant '\n' !in data[lineStart..lineEnd]
    {
      lineEnd := lineEnd + 1;
    }
    LineEndUnique(data[lineStart..last], lineEnd - lineStart);
  }

  /** What is still to be found in the buffered text `held` with the unread text `rest` behind it. */
  ghost function Pending(held: string, rest: string, pattern: string): seq<string> {
    Hits(Wrap(held + rest, BUFSIZE), pattern)
  }

  /** What is pending once the first held line has been searched. A line without a newline is taken
      whole only at the end of the text or when it fills the buffer. */
  lemma PendingStep(held: string, rest: string, pattern: string)
    requires |held| <= BUFSIZE
    requires LineEnd(held) == |held| ==> rest == "" || |held| == BUFSIZE
    ensures var e := LineEnd(held);
            Pending(held, rest, pattern) == (if Contains(held[..e], pattern) then [held[..e]] else [])
              + Pending(if e < |held| then held[e + 1..] else "", rest, pattern)
  {
    hide Wrap, Hits, Contains, LineEnd;
    var e := LineEnd(held);
    if e < |held| {
      var next := held[e + 1..];
      assert held + rest == held[..e] + ['\n'] + (next + rest);
      WrapEnded(held[..e], next + rest, BUFSIZE);
      HitsOne(held[..e], Wrap(next + rest, BUFSIZE), pattern);
    } else {
      assert held[..e] == held && "" + rest == rest;
      if |held| == BUFSIZE {
        WrapFull(held, rest, BUFSIZE);
        HitsOne(held, Wrap(rest, BUFSIZE), pattern);
      } else {
        assert held + rest == held && [held] + [] == [held];
        WrapOpen(held, BUFSIZE);
        HitsOne(held, [], pattern);
        NothingPending(pattern);
      }
    }
  }

  lemma NothingPending(pattern: string)
    ensures Pending("", "", pattern) == [] == Hits([], pattern)
  {
    assert "" + "" == "" && Wrap("", BUFSIZE) == [""] + [];
    HitsOne("", [], pattern);
  }

  /** What follows the last newline. */
  function Unfinished(held: string): (rest: string)
    ensures |rest| <= |held|
  {
    var e := LineEnd(held);
    if e == |held| then held else Unfinished(held[e + 1..])
  }

  /** What a full buffer keeps of its text: the unfinished line, unless it fills the buffer. */
  function Kept(held: string): (rest: string)
    ensures |rest| <= |held| && (held != "" ==> |rest| < |held|)
  {
    var e := LineEnd(held);
    if e == |held| then "" else Unfinished(held[e + 1..])
  }

  /** Past a newline the same is left unfinished. */
  lemma KeptNext(text: string, lo: nat, hi: nat)
    requires lo <= hi <= |text| && hi - lo == LineEnd(text[lo..])
    ensures if hi == |text| then Unfinished(text[lo..]) == text[lo..] && (lo == 0 ==> Kept(text) == "")
            else Unfinished(text[hi + 1..]) == if lo == 0 then Kept(text) else Unfinished(text[lo..])
    ensures hi + 1 == |text| ==> Unfinished(text[hi + 1..]) == ""
  {
    assert lo == 0 ==> text[lo..] == text;
    if hi < |text| {
      assert text[lo..][hi - lo + 1..] == text[hi + 1..];
    }
  }

  /** How far into the text the program reads: from `pos` on, with `k` bytes of an unfinished line in the
      buffer, until a read returns nothing. */
  function Reach(whole: bool, text: string, pos: nat, k: nat): (p: nat)
    requires k < BUFSIZE && k <= pos <= |text|
    ensures pos <= p <= |text|
    decreases |text| - pos
  {
    var c := ReadAmount(whole, |text|, pos, BUFSIZE - k);
    if c == 0 then pos
    else if c < BUFSIZE - k then pos + c
    else Reach(whole, text, pos + c, |Kept(text[pos - k..pos + c])|)
  }

  /** Searches every line the buffer holds; an unfinished last line is kept, at the front. */
  method ScanBuffer(s: array<char>, sLen: nat, fname: string, data: array<char>, last0: nat, cnt: nat,
                    out0: seq<string>, ghost rest: string, ghost hits0: seq<string>, ghost pattern: string)
    returns (last: nat, out: seq<string>, ghost hits: seq<string>)
    requires Holds(s, pattern) && sLen == |pattern|
    requires s != data && data.Length == BUFSIZE + 1 && last0 <= BUFSIZE && data[BUFSIZE] != '\n'
    requires '\0' !in data[..last0]
    requires last0 == BUFSIZE || rest == ""
    requires cnt == 0 ==> rest == ""
    requires out0 == Report(fname, hits0)
    modifies data
    ensures last < BUFSIZE && data[BUFSIZE] != '\n' && '\0' !in data[..last]
    ensures cnt == 0 ==> last == 0
    ensures out == Report(fname, hits)
    ensures hits + Pending(data[..last], rest, pattern) == hits0 + Pending(old(data[..last0]), rest, pattern)
    ensures last0 == BUFSIZE && cnt != 0 ==> data[..last] == Kept(old(data[..last0]))
  {
    hide Pending, Report, LineEnd, Contains, Unfinished, Kept, Hits, MatchesAt, Holds;
    ghost var text := data[..last0];
    last, out, hits := last0, out0, hits0;
    var lineStart := 0;
    assert text[0..] == text;
    while true
      invariant lineStart < last || lineStart == 0
      invariant last == last0 && data[BUFSIZE] != '\n'
      invariant forall k :: lineStart <= k < last ==> data[k] == text[k]
      invariant out == Report(fname, hits)
      invariant hits + Pending(text[lineStart..], rest, pattern) == hits0 + Pending(text, rest, pattern)
      invariant lineStart != 0 ==> Kept(text) == Unfinished(text[lineStart..])
      decreases last - lineStart
    {
      assert data[lineStart..last] == text[lineStart..];
      var lineEnd := FindLineEnd(data, lineStart, last);
      KeptNext(text, lineStart, lineEnd);
      if '\n' != data[lineEnd] && 0 != cnt && lineStart != 0 {
        KeepUnfinished(data, lineStart, last);
        last := last - lineStart;
        assert data[..last] == text[lineStart..];
        break;
      }
      ghost var before := hits;
      assert data[lineStart..lineEnd] == text[lineStart..lineEnd];
      out, hits := ReportIfFound(s, sLen, fname, data, lineStart, lineEnd, out, hits, pattern);
      PendingAfterLine(text, lineStart, lineEnd, rest, pattern, before, hits);
      lineStart := lineEnd + 1;
      if lineStart >= last {
        last := 0;
        assert data[..last] == "" && (lineEnd < |text| ==> text[lineEnd + 1..] == "");
        break;
      }
    }
  }

  lemma PendingAfterLine(text: string, lo: nat, hi: nat, rest: string, pattern: string,
                         before: seq<string>, hits: seq<string>)
    requires lo <= hi <= |text| <= BUFSIZE && hi - lo == LineEnd(text[lo..])
    requires hi == |text| ==> rest == "" || hi - lo == BUFSIZE
    requires hits == before + (if Contains(text[lo..hi], pattern) then [text[lo..hi]] else [])
    ensures hits + Pending(if hi < |text| then text[hi + 1..] else "", rest, pattern)
         == before + Pending(text[lo..], rest, pattern)
  {
    hide Contains, Pending, LineEnd;
    var next := Pending(if hi < |text| then text[hi + 1..] else "", rest, pattern);
    var now := if Contains(text[lo..hi], pattern) then [text[lo..hi]] else [];
    PendingStep(text[lo..], rest, pattern);
    assert text[lo..][..hi - lo] == text[lo..hi];
    assert hi < |text| ==> text[lo..][hi - lo + 1..] == text[hi + 1..];
    ConcatAssociative(before, now, next);
  }

  /** The part of the file that is searched. */
  function Searched(file: TextFile): string {
    file.content[..Reach(file.Whole(), file.content, 0, 0)]
  }

  /** Searches one file. `data` is the buffer on the stack, with whatever was there before. */
  method DoOneFile(s: array<char>, fname: string, file: TextFile?, data: array<char>)
    returns (ret: int, out: seq<string>)
    requires Terminated(s[..], 0)
    requires s != data && data.Length == BUFSIZE + 1 && data[BUFSIZE] != '\n'
    requires file != null ==> file.Valid() && file.pos == 0 && '\0' !in file.content
    modifies data, file, if file == null then null else file.entry
    ensures file == null ==> ret == -1 && out == ["file open failed\n"]
    ensures file != null ==>
              var all := Hits(Wrap(Searched(file), BUFSIZE), CString(s[..], 0));
              if file.faultAt <= |Searched(file)| then
                ret == -1 && exists hits :: hits <= all && out == Report(fname, hits) + ["file read failed\n"]
              else if file.closeFails then ret == -1 && out == Report(fname, all) + ["file close failed\n"]
              else ret == 0 && out == Report(fname, all)
  {
    var sLen := Strlen(s, 0);
    if file == null {
      return -1, ["file open failed\n"];
    }
    ghost var pattern := CString(s[..], 0);
    ghost var hits: seq<string>;
    var ok: bool;
    ok, out, hits := SearchFile(s, sLen, fname, file, data, pattern);
    if !ok {
      return -1, out + ["file read failed\n"];
    }
    if file.closeFails {
      return -1, out + ["file close failed\n"];
    }
    return 0, out;
  }

  /** What has been read is all there is, or what is in the buffer is its end. */
  ghost predicate Follows(whole: bool, text: string, pos: nat, held: string) {
    && |held| < BUFSIZE && pos <= Reach(whole, text, 0, 0)
    && (pos == |text| ||
        (|held| <= pos <= |text| && held == text[pos - |held|..pos]
          && Reach(whole, text, pos, |held|) == Reach(whole, text, 0, 0)))
  }

  /** Reads and scans until a read returns nothing, or fails. */
  method SearchFile(s: array<char>, sLen: nat, fname: string, file: TextFile, data: array<char>, ghost pattern: string)
    returns (ok: bool, out: seq<string>, ghost hits: seq<string>)
    requires Holds(s, pattern) && sLen == |pattern|
    requires s != data && data.Length == BUFSIZE + 1 && data[BUFSIZE] != '\n'
    requires file.Valid() && file.pos == 0 && '\0' !in file.content
    modifies data, file, file.entry
    ensures ok <==> file.faultAt > |Searched(file)|
    ensures out == Report(fname, hits)
    ensures var all := Hits(Wrap(Searched(file), BUFSIZE), pattern);
            if ok then hits == all else hits <= all
  {
    hide Pending, Report, Hits, Wrap, Follows, Reach, ReadAmount, Kept, Content, TextFile.Valid;
    ghost var whole, text, all := file.Whole(), file.content, Searched(file);
    out, hits := Report(fname, []), [];
    var last := 0;
    PendingStart(all, pattern);
    FollowsStart(whole, text);
    while true
      invariant 0 <= last < BUFSIZE && file.Valid() && Follows(whole, text, file.pos, data[..last]) && file.pos <= |all|
      invariant data[BUFSIZE] != '\n' && '\0' !in data[..last]
      invariant out == Report(fname, hits)
      invariant hits + Pending(data[..last], all[file.pos..], pattern) == Hits(Wrap(all, BUFSIZE), pattern)
      decreases |all| - file.pos
    {
      ghost var held, was := data[..last], file.pos;
      FollowsRead(whole, text, was, held);
      var cnt := ReadBehind(file, data, last);
      if cnt == -1 {
        return false, out, hits;
      }
      ghost var rest := all[file.pos..];
      PendingRead(held, text, all, was, file.pos, pattern);
      last, out, hits := ScanBuffer(s, sLen, fname, data, last + cnt, cnt, out, rest, hits, pattern);
      if cnt == 0 {
        assert data[..last] == "" && rest == "";
        return true, out, hits;
      }
      FollowsNext(whole, text, was, held, cnt, data[..last]);
    }
  }

  /** Reads as much as there is room for, behind what the buffer holds. */
  method ReadBehind(file: TextFile, data: array<char>, last: nat) returns (cnt: int)
    requires file.Valid() && '\0' !in file.content && data.Length == BUFSIZE + 1 && last < BUFSIZE
    requires '\0' !in data[..last]
    modifies data, file, file.entry
    ensures file.Valid() && data[BUFSIZE] == old(data[BUFSIZE])
    ensures cnt == if file.faultAt <= old(file.pos) then -1
                   else ReadAmount(file.Whole(), |file.content|, old(file.pos), BUFSIZE - last)
    ensures file.pos == old(file.pos) + if cnt < 0 then 0 else cnt
    ensures cnt >= 0 ==> data[..last + cnt] == old(data[..last]) + file.content[old(file.pos)..file.pos]
    ensures cnt >= 0 ==> '\0' !in data[..last + cnt]
  {
    hide ReadAmount, TextFile.Valid;
    ghost var held, was := data[..last], file.pos;
    FileBounds(file);
    cnt := file.Read(data, last, BUFSIZE - last);
    FileBounds(file);
    if cnt >= 0 {
      assert data[..last + cnt] == held + data[last..last + cnt];
      forall c | c in file.content[was..file.pos] ensures c in file.content {
      }
    }
  }

  lemma FileBounds(file: TextFile)
    requires file.Valid()
    ensures file.pos <= |file.content|
  {
  }

  lemma PendingRead(held: string, text: string, all: string, was: nat, now: nat, pattern: string)
    requires was <= now <= |all| <= |text| && all == text[..|all|]
    ensures Pending(held + text[was..now], all[now..], pattern) == Pending(held, all[was..], pattern)
  {
    assert text[was..now] == all[was..now];
    PendingMove(held, all, was, now, pattern);
  }

  lemma FollowsStart(whole: bool, text: string)
    ensures Follows(whole, text, 0, "")
  {
    assert text[0..0] == "";
  }

  /** What the next read returns: it fills the buffer, or is the last. */
  lemma FollowsRead(whole: bool, text: string, pos: nat, held: string)
    requires Follows(whole, text, pos, held)
    ensures pos <= |text|
    ensures var c, p := ReadAmount(whole, |text|, pos, BUFSIZE - |held|), Reach(whole, text, 0, 0);
            pos + c <= p && (c == BUFSIZE - |held| || pos + c == p) && (c == 0 ==> pos == p)
  {
  }

  lemma PartIsLast(whole: bool, length: nat, pos: nat, n: nat)
    requires pos <= length
    ensures 0 < ReadAmount(whole, length, pos, n) < n ==> pos + ReadAmount(whole, length, pos, n) == length
  {
  }

  lemma ReachNext(whole: bool, text: string, pos: nat, k: nat)
    requires k < BUFSIZE && k <= pos <= |text| && ReadAmount(whole, |text|, pos, BUFSIZE - k) == BUFSIZE - k
    ensures var next := pos + (BUFSIZE - k);
            next <= |text| && Reach(whole, text, pos, k) == Reach(whole, text, next, |Kept(text[pos - k..next])|)
  {
    hide Kept, ReadAmount;
  }

  lemma FollowsNext(whole: bool, text: string, pos: nat, held: string, c: nat, now: string)
    requires Follows(whole, text, pos, held) && 0 < c && pos <= |text|
    requires c == ReadAmount(whole, |text|, pos, BUFSIZE - |held|) && |now| < BUFSIZE
    requires |held| + c == BUFSIZE ==> now == Kept(held + text[pos..pos + c])
    ensures Follows(whole, text, pos + c, now)
  {
    hide Kept, ReadAmount, Reach;
    FollowsRead(whole, text, pos, held);
    PartIsLast(whole, |text|, pos, BUFSIZE - |held|);
    if pos + c != |text| {
      var k, next := |held|, pos + c;
      ReachNext(whole, text, pos, k);
      assert held + text[pos..next] == text[pos - k..next];
      KeptEnds(text[pos - k..next]);
      SliceOfSlice(text, pos - k, next, BUFSIZE - |now|, BUFSIZE);
    }
  }

  /** What is kept is the end of the buffer. */
  lemma KeptEnds(held: string)
    ensures Kept(held) == held[|held| - |Kept(held)|..]
  {
    var e := LineEnd(held);
    if e < |held| {
      UnfinishedEnds(held[e + 1..]);
      var rest := Unfinished(held[e + 1..]);
      assert held[e + 1..][|held| - e - 1 - |rest|..] == held[|held| - |rest|..];
    }
  }

  lemma {:induction false} UnfinishedEnds(held: string)
    ensures Unfinished(held) == held[|held| - |Unfinished(held)|..]
  {
    var e := LineEnd(held);
    if e < |held| {
      UnfinishedEnds(held[e + 1..]);
      var rest := Unfinished(held[e + 1..]);
      assert held[e + 1..][|held| - e - 1 - |rest|..] == held[|held| - |rest|..];
    }
  }

  lemma PendingStart(text: string, pattern: string)
    ensures [] + Pending("", text[0..], pattern) == Hits(Wrap(text, BUFSIZE), pattern)
    ensures Pending("", "", pattern) == []
  {
    assert "" + text[0..] == text;
    NothingPending(pattern);
  }

  lemma PendingMove(held: string, text: string, was: nat, now: nat, pattern: string)
    requires was <= now <= |text|
    ensures Pending(held + text[was..now], text[now..], pattern) == Pending(held, text[was..], pattern)
  {
    assert held + text[was..now] + text[now..] == held + text[was..];
  }
}
