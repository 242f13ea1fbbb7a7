/** The buffer between the keyboard of a terminal and the program that reads from it. */
module ReadBuffer {
  import opened CStrings
  import opened HistoryRing
  import opened LineEditing
  import opened TextRows

  /** What was received before stays behind a shorter line. */
  function Received(bytes: seq<char>, text: string): (r: seq<char>)
    requires |bytes| == LINE_BYTES && |text| < LINE_BYTES
    ensures |r| == LINE_BYTES
  {
    text + ['\n'] + bytes[|text| + 1..]
  }

  /** The last byte that the reader asks for is taken for the end of its string. */
  function Cut(bytes: seq<char>, nbytes: nat): (r: seq<char>)
    requires |bytes| == LINE_BYTES && 1 <= nbytes <= LINE_BYTES
    ensures |r| == LINE_BYTES
  {
    bytes[nbytes - 1 := '\0']
  }

  lemma CutEnds(bytes: seq<char>, nbytes: nat)
    requires |bytes| == LINE_BYTES && 1 <= nbytes <= LINE_BYTES
    ensures Terminated(Cut(bytes, nbytes), 0)
  {
    assert Cut(bytes, nbytes)[nbytes - 1] == '\0';
  }

  function CopiedOut(bytes: seq<char>, nbytes: nat): (r: seq<char>)
    requires |bytes| == LINE_BYTES && 1 <= nbytes <= LINE_BYTES
    ensures |r| == nbytes
  {
    CutEnds(bytes, nbytes);
    Padded(CString(Cut(bytes, nbytes), 0), nbytes)
  }

  // ---------- A terminal ----------

  datatype Reader = NoReader | Reading(nbytes: nat)

  /** One terminal: the line on it, whether its switch is on, the bytes of its read buffer, and the
      program in the middle of a read. */
  datatype Desk = Desk(session: Session, waiting: bool, bytes: seq<char>, reader: Reader)

  /** What a read returns; a count beyond the buffer means that the search found no newline in it. */
  datatype Outcome = Outcome(count: nat, out: seq<char>)

  ghost predicate Sound(d: Desk) {
    Proper(d.session) && |d.bytes| == LINE_BYTES && (d.reader.Reading? ==> 1 <= d.reader.nbytes <= LINE_BYTES)
  }

  function Begun(d: Desk, nbytes: nat): Desk {
    d.(waiting := true, reader := Reading(nbytes))
  }

  function KeyAt(d: Desk, k: Key): Desk
    requires Sound(d)
  {
    var kept := d.(session := Pressed(d.session, k));
    if k == Enter && d.waiting then kept.(waiting := false, bytes := Received(d.bytes, d.session.text)) else kept
  }

  function Completed(d: Desk): Desk
    requires Sound(d) && d.reader.Reading?
  {
    d.(reader := NoReader, bytes := Cut(d.bytes, d.reader.nbytes))
  }

  function Returned(d: Desk): Outcome
    requires Sound(d) && d.reader.Reading?
  {
    Outcome(LineEnd(Cut(d.bytes, d.reader.nbytes)) + 1, CopiedOut(d.bytes, d.reader.nbytes))
  }
}
