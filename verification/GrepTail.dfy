/** Grep on the kernel's own file system: where its reading ends, and what it misses. */
module GrepTail {
  import opened Grep
  import opened Seqs
  import opened TextRows

  // ---------- What an unread tail changes ----------

  predicate OnlyNewlines(s: string) {
    forall i :: 0 <= i < |s| ==> s[i] == '\n'
  }

  /** A measure of what is found, which every further character of a found row raises. */
  function Weight(hits: seq<string>): nat {
    if hits == [] then 0 else Weight(hits[..|hits| - 1]) + |hits[|hits| - 1]| + 1
  }

  lemma {:induction false} WeightParts(a: seq<string>, b: seq<string>)
    ensures Weight(a + b) == Weight(a) + Weight(b)
  {
    if b == [] {
      assert a + b == a;
    } else {
      WeightParts(a, b[..|b| - 1]);
      assert (a + b)[..|a + b| - 1] == a + b[..|b| - 1];
    }
  }

  lemma WeightOne(hit: string)
    ensures Weight([]) == 0 && Weight([hit]) == |hit| + 1
  {
    assert [hit][..0] == [];
  }

  function Found(rows: seq<string>, pattern: string): nat {
    Weight(Hits(rows, pattern))
  }

  function FoundIn(row: string, pattern: string): nat {
    if Contains(row, pattern) then |row| + 1 else 0
  }

  lemma FoundLast(closed: seq<string>, open: string, pattern: string)
    ensures Found(closed + [open], pattern) == Found(closed, pattern) + FoundIn(open, pattern)
  {
    hide Contains;
    HitsConcat(closed, [open], pattern);
    assert [open] + [] == [open];
    HitsOne(open, [], pattern);
    HitsOfNone(pattern);
    WeightParts(Hits(closed, pattern), Hits([open], pattern));
    WeightOne(open);
    var found := if Contains(open, pattern) then [open] else [];
    assert found + [] == found;
  }

  lemma ContainsOne(row: string, c: char)
    ensures Contains(row, [c]) <==> c in row
  {
    if c in row {
      var i :| 0 <= i < |row| && row[i] == c;
      assert row[i..i + 1] == [c] && MatchesAt(row, [c], i);
    }
    if Contains(row, [c]) {
      var i :| 0 <= i < |row| && MatchesAt(row, [c], i);
      assert row[i] == row[i..i + 1][0];
    }
  }

  /** A newline changes nothing that is found, and every other character raises what is found for it. */
  lemma ExtendFinds(rows: seq<string>, d: char, pattern: string)
    requires rows != []
    ensures d == '\n' ==> Hits(Extend(rows, d, BUFSIZE), pattern) == Hits(rows, pattern)
  {
    hide Contains;
    if d == '\n' {
      HitsConcat(rows, [""], pattern);
      assert Extend(rows, d, BUFSIZE) == rows + [""];
      HitsOfEmptyRow(pattern);
      HitsOfNone(pattern);
    }
  }

  lemma ExtendRaises(rows: seq<string>, d: char, c: char)
    requires rows != [] && c != '\n'
    ensures var next := Found(Extend(rows, d, BUFSIZE), [c]);
            next >= Found(rows, [c]) && (d == c ==> next > Found(rows, [c]))
  {
    hide Contains, Found;
    var closed, open := rows[..|rows| - 1], rows[|rows| - 1];
    assert rows == closed + [open];
    FoundLast(closed, open, [c]);
    ContainsOne(open, c);
    FoundLast(rows, "", [c]);
    ContainsOne("", c);
    assert closed + [open, ""] == rows + [""];
    if d != '\n' {
      var now := open + [d];
      assert c in now <==> c in open || c == d;
      ContainsOne(now, c);
      FoundLast(closed, now, [c]);
      FoundLast(closed + [now], "", [c]);
      assert closed + [now, ""] == (closed + [now]) + [""];
    }
  }

  lemma {:induction false} NewlinesFindNothing(a: string, b: string, pattern: string)
    requires OnlyNewlines(b)
    ensures Hits(Wrap(a + b, BUFSIZE), pattern) == Hits(Wrap(a, BUFSIZE), pattern)
  {
    hide Hits, Wrap, Extend;
    if b == "" {
      assert a + b == a;
    } else {
      var before := b[..|b| - 1];
      NewlinesFindNothing(a, before, pattern);
      assert a + b == (a + before) + [b[|b| - 1]];
      WrapAppend(a + before, b[|b| - 1], BUFSIZE);
      ExtendFinds(Wrap(a + before, BUFSIZE), b[|b| - 1], pattern);
    }
  }

  lemma {:induction false} TailRaises(a: string, b: string, c: char)
    requires c != '\n'
    ensures var now, was := Found(Wrap(a + b, BUFSIZE), [c]), Found(Wrap(a, BUFSIZE), [c]);
            now >= was && (c in b ==> now > was)
  {
    hide Found, Wrap, Extend;
    if b == "" {
      assert a + b == a;
    } else {
      var before, d := b[..|b| - 1], b[|b| - 1];
      TailRaises(a, before, c);
      assert b == before + [d] && a + b == (a + before) + [d];
      WrapAppend(a + before, d, BUFSIZE);
      ExtendRaises(Wrap(a + before, BUFSIZE), d, c);
    }
  }

  /** A tail that is not read makes no difference, whatever is searched for, if and only if there is
      nothing in it but newlines. */
  lemma UnreadTailMatters(text: string, p: nat)
    requires p <= |text|
    ensures OnlyNewlines(text[p..])
       <==> forall pattern :: Hits(Wrap(text[..p], BUFSIZE), pattern) == Hits(Wrap(text, BUFSIZE), pattern)
  {
    hide Hits, Wrap, Found;
    var a, b := text[..p], text[p..];
    assert a + b == text;
    if OnlyNewlines(b) {
      forall pattern ensures Hits(Wrap(a, BUFSIZE), pattern) == Hits(Wrap(text, BUFSIZE), pattern) {
        NewlinesFindNothing(a, b, pattern);
      }
    } else {
      var i :| 0 <= i < |b| && b[i] != '\n';
      TailRaises(a, b, b[i]);
      DifferentFound(Wrap(a, BUFSIZE), Wrap(text, BUFSIZE), [b[i]]);
    }
  }

  lemma DifferentFound(a: seq<string>, b: seq<string>, pattern: string)
    requires Found(a, pattern) != Found(b, pattern)
    ensures Hits(a, pattern) != Hits(b, pattern)
  {
  }

  // ---------- Where reading ends ----------

  /** On a device that returns what is left, everything is read. */
  lemma {:induction false} ReachesEnd(text: string, pos: nat, k: nat)
    requires k < BUFSIZE && k <= pos <= |text|
    ensures Reach(true, text, pos, k) == |text|
    decreases |text| - pos
  {
    hide Kept;
    var c := ReadAmount(true, |text|, pos, BUFSIZE - k);
    if c == BUFSIZE - k {
      ReachesEnd(text, pos + c, |Kept(text[pos - k..pos + c])|);
    }
  }

  /** On the kernel's file system, reading ends at the end of the last full buffer: less than a buffer can
      be missed, and nothing of a file that fits one. */
  lemma {:induction false} MissesLessThanABuffer(text: string, pos: nat, k: nat)
    requires k < BUFSIZE && k <= pos <= |text|
    ensures |text| - Reach(false, text, pos, k) < BUFSIZE
    ensures |text| <= BUFSIZE && pos == 0 ==> Reach(false, text, pos, k) == |text|
    decreases |text| - pos
  {
    hide Kept;
    var c := ReadAmount(false, |text|, pos, BUFSIZE - k);
    if c == BUFSIZE - k {
      MissesLessThanABuffer(text, pos + c, |Kept(text[pos - k..pos + c])|);
    }
  }

  /** For a file whose lines fit the buffer: on the kernel's file system grep finds every line with the
      pattern, whatever the pattern is, if and only if there are only newlines behind where its reading
      ends. On a device that returns what is left it always does. */
  lemma FindsEveryLine(whole: bool, text: string)
    requires forall r :: 0 <= r < |Lines(text)| ==> |Lines(text)[r]| <= BUFSIZE
    ensures var p := Reach(whole, text, 0, 0);
            && (whole ==> p == |text|)
            && (OnlyNewlines(text[p..])
                <==> forall pattern :: Hits(Wrap(text[..p], BUFSIZE), pattern) == Hits(Lines(text), pattern))
  {
    hide Hits, Wrap, Lines, OnlyNewlines, Reach;
    var p := Reach(whole, text, 0, 0);
    UnreadTailMatters(text, p);
    forall pattern ensures Hits(Wrap(text, BUFSIZE), pattern) == Hits(Lines(text), pattern) {
      StreamingEqualsBatch(text, pattern);
    }
    if whole {
      ReachesEnd(text, 0, 0);
    }
  }

  /** A read that is not the first reads on only if it fills the buffer. */
  lemma ReachSteps(text: string, pos: nat, k: nat)
    requires k < BUFSIZE && k <= pos <= |text| && (pos > 0 || BUFSIZE <= |text|)
    ensures Reach(false, text, pos, k)
         == if pos - k + BUFSIZE <= |text| then
              Reach(false, text, pos - k + BUFSIZE, |Kept(text[pos - k..pos - k + BUFSIZE])|)
            else pos
  {
    hide Kept;
  }

  // ---------- One pattern ----------

  /** A line of the text, from `a` up to `e`. */
  ghost predicate IsLine(text: string, a: int, e: int) {
    && 0 <= a <= e <= |text| && (forall i :: a <= i < e ==> text[i] != '\n')
    && (a == 0 || text[a - 1] == '\n') && (e == |text| || text[e] == '\n')
  }

  ghost predicate HitAt(text: string, a: int, e: int, pattern: string) {
    IsLine(text, a, e) && Contains(text[a..e], pattern)
  }

  /** Every line that holds the pattern ends at or before `p`. */
  ghost predicate HitsEndBefore(text: string, p: int, pattern: string) {
    forall a, e :: HitAt(text, a, e, pattern) ==> e <= p
  }

  lemma HitFirst(text: string, e: int, pattern: string)
    ensures var n := LineEnd(text); HitAt(text, 0, e, pattern) <==> e == n && Contains(text[..n], pattern)
  {
    hide Contains;
    var n := LineEnd(text);
    if IsLine(text, 0, e) {
      LineEndUnique(text, e);
    }
    assert text[0..n] == text[..n];
  }

  lemma LineOfRest(text: string, n: nat, a: int, e: int)
    requires n == LineEnd(text) && a > 0
    ensures IsLine(text, a, e) <==> n < |text| && IsLine(text[n + 1..], a - n - 1, e - n - 1)
  {
    hide LineEnd;
    if IsLine(text, a, e) {
      assert n < a;
      var rest := text[n + 1..];
      assert forall i :: 0 <= i < |rest| ==> rest[i] == text[i + n + 1];
    }
  }

  lemma IsLineInside(text: string, a: int, e: int)
    requires IsLine(text, a, e)
    ensures 0 <= a <= e <= |text|
  {
  }

  lemma HitOfRest(text: string, n: nat, a: int, e: int, pattern: string)
    requires n == LineEnd(text) && a > 0
    ensures HitAt(text, a, e, pattern) <==> n < |text| && HitAt(text[n + 1..], a - n - 1, e - n - 1, pattern)
  {
    hide Contains, LineEnd, IsLine;
    LineOfRest(text, n, a, e);
    if n < |text| && IsLine(text[n + 1..], a - n - 1, e - n - 1) {
      IsLineInside(text[n + 1..], a - n - 1, e - n - 1);
      assert text[n + 1..] == text[n + 1..|text|];
      SliceOfSlice(text, n + 1, |text|, a - n - 1, e - n - 1);
    }
  }

  /** The first line, and those behind it. */
  lemma HitsEndSplit(text: string, p: int, pattern: string)
    ensures var n := LineEnd(text);
            HitsEndBefore(text, p, pattern)
            <==> (Contains(text[..n], pattern) ==> n <= p)
                 && (n < |text| ==> HitsEndBefore(text[n + 1..], p - n - 1, pattern))
  {
    hide Contains, HitAt, LineEnd;
    var n := LineEnd(text);
    HitFirst(text, n, pattern);
    if HitsEndBefore(text, p, pattern) {
      if n < |text| {
        var rest := text[n + 1..];
        forall a, e | HitAt(rest, a, e, pattern) ensures e <= p - n - 1 {
          HitInside(rest, a, e, pattern);
          HitOfRest(text, n, a + n + 1, e + n + 1, pattern);
        }
      }
    } else {
      var a, e :| HitAt(text, a, e, pattern) && e > p;
      HitInside(text, a, e, pattern);
      if a == 0 {
        HitFirst(text, e, pattern);
      } else {
        HitOfRest(text, n, a, e, pattern);
      }
    }
  }

  lemma HitInside(text: string, a: int, e: int, pattern: string)
    requires HitAt(text, a, e, pattern)
    ensures 0 <= a <= e <= |text|
  {
  }

  /** Nothing is found exactly when no line ends before the start. */
  lemma {:induction false} NoHits(text: string, p: int, pattern: string)
    requires p < 0
    ensures Hits(Lines(text), pattern) == [] <==> HitsEndBefore(text, p, pattern)
    decreases |text|
  {
    hide Contains, HitsEndBefore, LineEnd, Lines, Hits;
    var n := LineEnd(text);
    HitsEndSplit(text, p, pattern);
    LinesHits(text, pattern);
    if n < |text| {
      NoHits(text[n + 1..], p - n - 1, pattern);
    }
  }

  function FirstHit(text: string, pattern: string): seq<string> {
    var line := text[..LineEnd(text)];
    if Contains(line, pattern) then [line] else []
  }

  function LaterHits(text: string, pattern: string): seq<string> {
    var n := LineEnd(text);
    if n < |text| then Hits(Lines(text[n + 1..]), pattern) else []
  }

  lemma LinesHits(text: string, pattern: string)
    ensures Hits(Lines(text), pattern) == FirstHit(text, pattern) + LaterHits(text, pattern)
  {
    hide Contains, LineEnd;
    var n := LineEnd(text);
    if n < |text| {
      LinesSplit(text);
      HitsOne(text[..n], Lines(text[n + 1..]), pattern);
    } else {
      assert text[..n] == text && [text] + [] == [text];
      HitsOne(text, [], pattern);
      HitsOfNone(pattern);
    }
  }

  /** The part up to `p` and the text have the first line in common if it ends before `p`, and otherwise the
      part is a piece of that line. */
  lemma FirstOfPart(text: string, p: nat)
    requires p <= |text|
    ensures var n := LineEnd(text);
            if n < p then
              && LineEnd(text[..p]) == n && text[..p][..n] == text[..n]
              && text[..p][n + 1..] == text[n + 1..][..p - n - 1]
            else LineEnd(text[..p]) == p
  {
    var n, part := LineEnd(text), text[..p];
    assert forall i :: 0 <= i < p ==> part[i] == text[i];
    if n < p {
      LineEndUnique(part, n);
      assert part[n + 1..] == text[n + 1..][..p - n - 1];
    } else {
      LineEndUnique(part, p);
    }
  }

  /** The lines up to `p` have everything that is found in the text, and nothing else, exactly when every
      line with the pattern ends at or before `p`. */
  lemma {:induction false} PartFinds(text: string, p: nat, pattern: string)
    requires p <= |text|
    ensures Hits(Lines(text[..p]), pattern) == Hits(Lines(text), pattern) <==> HitsEndBefore(text, p, pattern)
    decreases |text|
  {
    hide Contains, HitsEndBefore, LineEnd, Lines, Hits;
    var n, part := LineEnd(text), text[..p];
    FirstOfPart(text, p);
    HitsEndSplit(text, p, pattern);
    LinesHits(text, pattern);
    LinesHits(part, pattern);
    if n < p {
      PartFinds(text[n + 1..], p - n - 1, pattern);
      SameBehind(FirstHit(text, pattern), LaterHits(part, pattern), LaterHits(text, pattern));
    } else {
      if n < |text| {
        NoHits(text[n + 1..], p - n - 1, pattern);
      }
      PieceFinds(text, p, pattern);
    }
  }

  lemma SameBehind(front: seq<string>, x: seq<string>, y: seq<string>)
    ensures front + x == front + y <==> x == y
  {
    if front + x == front + y {
      assert (front + x)[|front|..] == x && (front + y)[|front|..] == y;
    }
  }

  /** A piece of the first line finds what the text does exactly when the line ends there, or does not hold
      the pattern, and no later line does. */
  lemma PieceFinds(text: string, p: nat, pattern: string)
    requires p <= LineEnd(text) && LineEnd(text[..p]) == p
    ensures FirstHit(text[..p], pattern) + LaterHits(text[..p], pattern)
            == FirstHit(text, pattern) + LaterHits(text, pattern)
       <==> (Contains(text[..LineEnd(text)], pattern) ==> LineEnd(text) <= p) && LaterHits(text, pattern) == []
  {
    hide Contains, LineEnd, Lines, Hits;
    var line, piece, later := text[..LineEnd(text)], text[..p], LaterHits(text, pattern);
    assert piece == line[0..p] && piece[..p] == piece;
    if Contains(piece, pattern) {
      ContainsInfix(line, 0, p, pattern);
    }
    PieceCases(piece, line, later, pattern);
  }

  lemma PieceCases(piece: string, line: string, later: seq<string>, pattern: string)
    requires |piece| <= |line| && piece == line[..|piece|] && (Contains(piece, pattern) ==> Contains(line, pattern))
    ensures var found := if Contains(piece, pattern) then [piece] else [];
            found + [] == (if Contains(line, pattern) then [line] else []) + later
            <==> (Contains(line, pattern) ==> |line| <= |piece|) && later == []
  {
    hide Contains;
    var found := if Contains(piece, pattern) then [piece] else [];
    var all := (if Contains(line, pattern) then [line] else []) + later;
    assert found + [] == found;
    if Contains(line, pattern) {
      assert |all| == 1 + |later| && all[0] == line;
    } else {
      assert all == later;
    }
    if |piece| == |line| {
      assert piece == line;
    }
  }

  ghost predicate Fit(hits: seq<string>) {
    forall h :: h in hits ==> |h| <= BUFSIZE
  }

  lemma FitByHits(rows: seq<string>, pattern: string)
    ensures HitsFit(rows, pattern) <==> Fit(Hits(rows, pattern))
  {
    hide Contains, Hits;
    HitsMembers(rows, pattern);
  }

  /** If what is found in a text fits the buffer, then so does what is found in a part of it. */
  lemma {:induction false} PartFits(text: string, p: nat, pattern: string)
    requires p <= |text| && Fit(Hits(Lines(text), pattern))
    ensures Fit(Hits(Lines(text[..p]), pattern))
    decreases |text|
  {
    hide Contains, LineEnd, Lines, Hits;
    var n, part := LineEnd(text), text[..p];
    FirstOfPart(text, p);
    LinesHits(text, pattern);
    LinesHits(part, pattern);
    if n < p {
      PartFits(text[n + 1..], p - n - 1, pattern);
    } else {
      var line := text[..n];
      assert part == line[0..p] && part[..p] == part;
      if Contains(part, pattern) {
        ContainsInfix(line, 0, p, pattern);
        assert line in FirstHit(text, pattern);
      }
    }
  }

  /** What a part of a file finds through the buffer is what its whole lines are searched for exactly when
      the lines with the pattern fit the buffer and lie before the end of the part. */
  lemma PartStreams(text: string, p: nat, pattern: string)
    requires p <= |text|
    ensures Hits(Wrap(text[..p], BUFSIZE), pattern) == Hits(Lines(text), pattern)
       <==> HitsFit(Lines(text), pattern) && HitsEndBefore(text, p, pattern)
  {
    hide Hits, Wrap, Lines, HitsFit, HitsEndBefore;
    var part := text[..p];
    StreamingEqualsBatch(part, pattern);
    PartFinds(text, p, pattern);
    FitByHits(Lines(part), pattern);
    FitByHits(Lines(text), pattern);
    WrapFits(part, pattern);
    if HitsFit(Lines(text), pattern) {
      PartFits(text, p, pattern);
    }
  }

  lemma WrapFits(text: string, pattern: string)
    ensures Fit(Hits(Wrap(text, BUFSIZE), pattern))
    ensures forall h :: h in Hits(Wrap(text, BUFSIZE), pattern) ==> '\n' !in h
  {
    hide Contains, Hits, Wrap;
    HitsMembers(Wrap(text, BUFSIZE), pattern);
    WrapRowBounds(text, BUFSIZE);
  }

  lemma {:induction false} LinesPlain(text: string)
    ensures forall r :: r in Lines(text) ==> '\n' !in r
    decreases |text|
  {
    hide LineEnd;
    var n := LineEnd(text);
    if n < |text| {
      LinesPlain(text[n + 1..]);
    }
  }

  /** Grep prints for a file what printing every line with the pattern would look like, if and only if
      each of them fits the buffer and ends before its reading does. */
  lemma PrintsEveryLine(file: TextFile, fname: string, pattern: string)
    ensures var rows := Wrap(Searched(file), BUFSIZE);
            Printed(Report(fname, Hits(rows, pattern))) == Printed(Report(fname, Hits(Lines(file.content), pattern)))
            <==> HitsFit(Lines(file.content), pattern) && HitsEndBefore(file.content, |Searched(file)|, pattern)
  {
    hide Printed, Report, Hits, Contains, Wrap, Lines, HitsFit, HitsEndBefore, Reach;
    var text, rows := file.content, Wrap(Searched(file), BUFSIZE);
    PartStreams(text, |Searched(file)|, pattern);
    WrapFits(Searched(file), pattern);
    LinesPlain(text);
    HitsMembers(Lines(text), pattern);
    if Printed(Report(fname, Hits(rows, pattern))) == Printed(Report(fname, Hits(Lines(text), pattern))) {
      PrintedInjective(fname, Hits(rows, pattern), Hits(Lines(text), pattern));
    }
  }

  // ---------- A file that loses its end ----------

  lemma ThreeLines(text: string)
    requires |text| == 2 * BUFSIZE
    requires forall i :: 0 <= i < |text| ==> (text[i] == '\n' <==> i == 1013 || i == 1513)
    ensures forall r :: r in Lines(text) ==> |r| <= BUFSIZE
  {
    hide LineEnd, Lines;
    var second, third := text[1014..], text[1514..];
    LineEndUnique(text, 1013);
    LinesSplit(text);
    LineEndUnique(second, 499);
    LinesSplit(second);
    assert second[500..] == third;
    LastLine(third);
  }

  lemma LastLine(text: string)
    requires '\n' !in text
    ensures Lines(text) == [text]
  {
    LineEndUnique(text, |text|);
  }

  lemma TwoBuffers(text: string)
    requires 2038 <= |text| <= 2 * BUFSIZE
    requires forall i :: 0 <= i < |text| ==> (text[i] == '\n' <==> i == 1013 || i == 1513)
    ensures Reach(false, text, 0, 0) == 2038
  {
    hide Kept, Reach;
    ReachSteps(text, 0, 0);
    KeepsAfter(text[0..BUFSIZE], 1013);
    ReachSteps(text, BUFSIZE, 10);
    KeepsAfter(text[1014..2038], 499);
    ReachSteps(text, 2038, 524);
  }

  lemma KeepsAfter(held: string, e: nat)
    requires e < |held| && forall i :: 0 <= i < |held| ==> (held[i] == '\n' <==> i == e)
    ensures |Kept(held)| == |held| - e - 1
  {
    LineEndUnique(held, e);
    LineEndUnique(held[e + 1..], |held| - e - 1);
  }

  /** For example a file of 2048 bytes with newlines only as bytes 1013 and 1513, so that each of its three
      lines fits the buffer: the first buffer keeps 10 bytes and the second 524, and reading ends after 2038
      bytes, although 1024 divides the length. A pattern that the last line holds is not found as it should.
      The file without the missed 10 bytes is read to its end. */
  lemma MissesTen(text: string)
    requires |text| == 2 * BUFSIZE
    requires forall i :: 0 <= i < |text| ==> (text[i] == '\n' <==> i == 1013 || i == 1513)
    ensures Reach(false, text, 0, 0) == 2038 == Reach(false, text[..2038], 0, 0)
    ensures forall r :: r in Lines(text) ==> |r| <= BUFSIZE
    ensures forall pattern :: Contains(text[1514..], pattern)
              ==> Hits(Wrap(text[..2038], BUFSIZE), pattern) != Hits(Lines(text), pattern)
    ensures Contains(text[1514..], text[1514..1515])
  {
    hide Contains, Hits, Wrap, Lines, Reach, HitsFit;
    TwoBuffers(text);
    TwoBuffers(text[..2038]);
    ThreeLines(text);
    forall pattern | Contains(text[1514..], pattern)
      ensures Hits(Wrap(text[..2038], BUFSIZE), pattern) != Hits(Lines(text), pattern)
    {
      assert text[1514..2048] == text[1514..] && HitAt(text, 1514, 2048, pattern);
      PartStreams(text, 2038, pattern);
    }
    assert text[1514..][0] == text[1514] && text[1514..1515] == [text[1514]];
    ContainsOne(text[1514..], text[1514]);
  }
}
