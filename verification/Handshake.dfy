/** Programs that wait for a line, on several terminals at once, with one keyboard. */
module Handshake {
  import opened LineEditing
  import opened HistoryRing
  import opened ReadBuffer
  import opened TextRows
  import CStrings

  // ---------- What the drivers keep ----------

  datatype Room = Room(desks: seq<Desk>, current: nat)

  datatype Event = Begin(t: nat, nbytes: nat) | Press(k: Key) | Switch(t: nat) | Complete(t: nat)

  ghost predicate AllSound(s: Room) {
    s.current < |s.desks| && forall t :: 0 <= t < |s.desks| ==> Sound(s.desks[t])
  }

  ghost predicate Allowed(s: Room, e: Event) {
    match e
    case Begin(t, nbytes) => t < |s.desks| && s.desks[t].reader == NoReader && 1 <= nbytes <= LINE_BYTES
    case Press(k) => KeyPressable(k)
    case Switch(t) => t < |s.desks|
    case Complete(t) => t < |s.desks| && s.desks[t].reader.Reading? && !s.desks[t].waiting
  }

  function Step(s: Room, e: Event): Room
    requires AllSound(s) && Allowed(s, e)
  {
    match e
    case Begin(t, nbytes) => s.(desks := s.desks[t := Begun(s.desks[t], nbytes)])
    case Press(k) => s.(desks := s.desks[s.current := KeyAt(s.desks[s.current], k)])
    case Switch(t) => s.(current := t)
    case Complete(t) => s.(desks := s.desks[t := Completed(s.desks[t])])
  }

  lemma StepSound(s: Room, e: Event)
    requires AllSound(s) && Allowed(s, e)
    ensures AllSound(Step(s, e)) && |Step(s, e).desks| == |s.desks|
  {
    hide Pressed, Proper;
    if e.Press? {
      StaysProper(s.desks[s.current].session, e.k);
    }
  }

  ghost predicate Legal(s: Room, es: seq<Event>)
    requires AllSound(s)
    decreases |es|
  {
    es == [] || (Allowed(s, es[0]) && (StepSound(s, es[0]); Legal(Step(s, es[0]), es[1..])))
  }

  /** What the reads on terminal `t` return, one after the other. */
  ghost function Outcomes(s: Room, es: seq<Event>, t: nat): seq<Outcome>
    requires AllSound(s) && Legal(s, es) && t < |s.desks|
    decreases |es|
  {
    if es == [] then []
    else
      StepSound(s, es[0]);
      var rest := Outcomes(Step(s, es[0]), es[1..], t);
      if es[0] == Complete(t) then [Returned(s.desks[t])] + rest else rest
  }

  // ---------- One terminal by itself: a mailbox ----------

  datatype Phase = Idle | Waiting(nbytes: nat) | Ready(nbytes: nat, line: string)

  datatype Mailbox = Mailbox(session: Session, phase: Phase)

  datatype Own = OwnBegin(nbytes: nat) | OwnKey(k: Key) | OwnComplete

  datatype Delivery = Delivery(nbytes: nat, line: string)

  /** An Enter fills the mailbox only for a program that waits, and only once. */
  function MailboxStep(m: Mailbox, o: Own): Mailbox
    requires Proper(m.session)
  {
    match o
    case OwnBegin(nbytes) => m.(phase := Waiting(nbytes))
    case OwnComplete => m.(phase := Idle)
    case OwnKey(k) =>
      Mailbox(Pressed(m.session, k),
              if k == Enter && m.phase.Waiting? then Ready(m.phase.nbytes, m.session.text) else m.phase)
  }

  ghost predicate Pressable(os: seq<Own>) {
    forall o :: o in os && o.OwnKey? ==> KeyPressable(o.k)
  }

  lemma MailboxProper(m: Mailbox, o: Own)
    requires Proper(m.session) && (o.OwnKey? ==> KeyPressable(o.k))
    ensures Proper(MailboxStep(m, o).session)
  {
    hide Pressed, Proper;
    if o.OwnKey? {
      StaysProper(m.session, o.k);
    }
  }

  /** The lines that are delivered. */
  ghost function Deliveries(m: Mailbox, os: seq<Own>): seq<Delivery>
    requires Proper(m.session) && Pressable(os)
    decreases |os|
  {
    if os == [] then []
    else
      MailboxProper(m, os[0]);
      var rest := Deliveries(MailboxStep(m, os[0]), os[1..]);
      if os[0] == OwnComplete && m.phase.Ready? then [Delivery(m.phase.nbytes, m.phase.line)] + rest else rest
  }

  /** The events that concern terminal `t`: a key concerns the terminal on display. */
  function Concerning(e: Event, current: nat, t: nat): seq<Own> {
    match e
    case Begin(u, nbytes) => if u == t then [OwnBegin(nbytes)] else []
    case Press(k) => if current == t then [OwnKey(k)] else []
    case Switch(u) => []
    case Complete(u) => if u == t then [OwnComplete] else []
  }

  function Projected(es: seq<Event>, current: nat, t: nat): seq<Own>
    decreases |es|
  {
    if es == [] then []
    else Concerning(es[0], current, t) + Projected(es[1..], if es[0].Switch? then es[0].t else current, t)
  }

  // ---------- The buffers are mailboxes ----------

  ghost predicate Represents(d: Desk, m: Mailbox) {
    && d.session == m.session && Sound(d)
    && match m.phase
       case Idle => d.reader == NoReader
       case Waiting(nbytes) => d.reader == Reading(nbytes) && d.waiting
       case Ready(nbytes, line) => d.reader == Reading(nbytes) && !d.waiting && Typed(line) && Begins(d.bytes, line)
  }

  /** The line and its newline stand first in the read buffer. */
  predicate Begins(bytes: seq<char>, line: string) {
    |line| < |bytes| && bytes[..|line| + 1] == line + ['\n']
  }

  /** What a read of `nbytes` must return for a line: the length with the newline, and as many characters
      as there is room for. A newline that does not fit because of the terminating NUL is lost. */
  ghost predicate Fulfils(o: Outcome, d: Delivery) {
    && |o.out| == d.nbytes
    && (o.count == |d.line| + 1 <==> d.nbytes != |d.line| + 1)
    && (d.nbytes == |d.line| + 1 ==> o.count > |d.line| + 1)
    && if |d.line| + 1 < d.nbytes then o.out[..|d.line| + 1] == d.line + ['\n']
       else 1 <= d.nbytes && o.out == d.line[..d.nbytes - 1] + ['\0']
  }

  lemma ReadFulfils(d: Desk, m: Mailbox)
    requires Represents(d, m) && m.phase.Ready?
    ensures Fulfils(Returned(d), Delivery(m.phase.nbytes, m.phase.line))
  {
    var line, n := m.phase.line, m.phase.nbytes;
    var cut := Cut(d.bytes, n);
    LineCut(d.bytes, line, n);
    CutEnds(d.bytes, n);
    CutString(d.bytes, line, n);
  }

  /** The search for the newline leaves the buffer exactly when the newline is the byte that was cut off,
      and no longer line has left another one behind it. */
  lemma SearchLeaves(d: Desk, m: Mailbox)
    requires Represents(d, m) && m.phase.Ready?
    ensures Returned(d).count == LINE_BYTES + 1
       <==> m.phase.nbytes == |m.phase.line| + 1 && '\n' !in d.bytes[|m.phase.line| + 1..]
  {
    var line, n := m.phase.line, m.phase.nbytes;
    var cut, i := Cut(d.bytes, n), LineEnd(Cut(d.bytes, n));
    LineCut(d.bytes, line, n);
    if n == |line| + 1 {
      var behind := d.bytes[|line| + 1..];
      if '\n' in behind {
        var k :| 0 <= k < |behind| && behind[k] == '\n';
        assert cut[|line| + 1 + k] == '\n';
      }
    }
  }

  /** Then the count is that of an older line: up to the first newline behind the one that was cut off, or beyond the
      buffer. */
  lemma CountsOldLine(d: Desk, m: Mailbox)
    requires Represents(d, m) && m.phase.Ready? && m.phase.nbytes == |m.phase.line| + 1
    ensures var z := |m.phase.line|; Returned(d).count == z + 1 + LineEnd(d.bytes[z + 1..]) + 1
  {
    var line, n := m.phase.line, m.phase.nbytes;
    var cut, behind := Cut(d.bytes, n), d.bytes[|line| + 1..];
    LineCut(d.bytes, line, n);
    var e := |line| + 1 + LineEnd(behind);
    assert forall i :: |line| < i < LINE_BYTES ==> cut[i] == behind[i - |line| - 1];
    LineEndUnique(cut, e);
  }

  /** What stands behind a line in the read buffer is what was there before it came, and all that a read changes is
      that the last byte it asked for becomes a NUL. */
  lemma OldBytesStay(d: Desk, i: nat)
    requires Sound(d) && i < LINE_BYTES
    ensures var r := KeyAt(d, Enter);
            |r.bytes| == LINE_BYTES
            && r.bytes[i] == if d.waiting && i < |d.session.text| then d.session.text[i]
                             else if d.waiting && i == |d.session.text| then '\n' else d.bytes[i]
    ensures d.reader.Reading? ==>
              |Completed(d).bytes| == LINE_BYTES
              && Completed(d).bytes[i] == if i == d.reader.nbytes - 1 then '\0' else d.bytes[i]
  {
  }

  /** A read returns the bytes of the buffer up to the first NUL, the one that it puts there included, and NULs behind
      it: what is left of older lines comes after the newline. */
  lemma OutBytes(d: Desk, i: nat)
    requires Sound(d) && d.reader.Reading? && i < d.reader.nbytes
    ensures var n, out := d.reader.nbytes, Returned(d).out;
            && |out| == n
            && out[i] == if i == n - 1 || '\0' in d.bytes[..i] then '\0' else d.bytes[i]
  {
    var n := d.reader.nbytes;
    var cut := Cut(d.bytes, n);
    CutEnds(d.bytes, n);
    var z := |CStrings.CString(cut, 0)|;
    assert CStrings.EndsAt(cut, 0, z) && cut[n - 1] == '\0' && z <= n - 1;
    if i < z {
      assert forall k :: 0 <= k <= i ==> d.bytes[k] == cut[k] != '\0';
    } else if z < i {
      assert d.bytes[..i][z] == cut[z];
    }
  }

  /** For example the first read of a terminal, if it asks for 1 byte and the line is empty: the newline is
      cut off, none has ever stood behind it, and the search leaves the buffer. The program gets a NUL and
      a count beyond the buffer for a line of 1 byte. */
  lemma FirstReadLeaves()
    ensures var d := Desk(Session("", 0, [], "", 0), false, CStrings.Padded("", LINE_BYTES), NoReader);
            var s, es := Room([d], 0), [Begin(0, 1), Press(Enter), Complete(0)];
            AllSound(s) && Legal(s, es) && Outcomes(s, es, 0) == [Outcome(LINE_BYTES + 1, ['\0'])]
  {
    var d := Desk(Session("", 0, [], "", 0), false, CStrings.Padded("", LINE_BYTES), NoReader);
    var s0 := Room([d], 0);
    var ready := KeyAt(Begun(d, 1), Enter);
    var s1, s2 := Room([Begun(d, 1)], 0), Room([ready], 0);
    CountsTooMuch(d);
    assert Step(s0, Begin(0, 1)) == s1 && Step(s1, Press(Enter)) == s2;
    var es := [Begin(0, 1), Press(Enter), Complete(0)];
    assert es[1..] == [Press(Enter), Complete(0)] && es[1..][1..] == [Complete(0)];
    assert Legal(s2, [Complete(0)]) && Outcomes(s2, [Complete(0)], 0) == [Returned(ready)];
  }

  lemma CountsTooMuch(d: Desk)
    requires Sound(d) && d.session.text == "" && d.bytes == CStrings.Padded("", LINE_BYTES)
    ensures Returned(KeyAt(Begun(d, 1), Enter)) == Outcome(LINE_BYTES + 1, ['\0'])
  {
    var cut := Cut(Received(d.bytes, ""), 1);
    assert forall i :: 0 <= i < |cut| ==> cut[i] == '\0';
    LineEndUnique(cut, LINE_BYTES);
  }

  lemma LineCut(bytes: seq<char>, line: string, n: nat)
    requires |bytes| == LINE_BYTES && 1 <= n <= LINE_BYTES && Begins(bytes, line) && Typed(line)
    ensures var i := LineEnd(Cut(bytes, n)); if n == |line| + 1 then i > |line| else i == |line|
  {
    var cut := Cut(bytes, n);
    assert bytes[|line|] == (line + ['\n'])[|line|];
    forall k | 0 <= k < |line| ensures cut[k] != '\n' {
      assert bytes[k] == (line + ['\n'])[k] && line[k] in line;
    }
    assert cut[|line|] == if n == |line| + 1 then '\0' else '\n';
  }

  lemma CutString(bytes: seq<char>, line: string, n: nat)
    requires |bytes| == LINE_BYTES && 1 <= n <= LINE_BYTES && Begins(bytes, line) && Typed(line)
    ensures var out := CopiedOut(bytes, n);
            if |line| + 1 < n then out[..|line| + 1] == line + ['\n'] else out == line[..n - 1] + ['\0']
  {
    CutEnds(bytes, n);
    var cut := Cut(bytes, n);
    forall k | 0 <= k <= |line| && k != n - 1 ensures cut[k] == (line + ['\n'])[k] && cut[k] != '\0' {
      assert bytes[k] == (line + ['\n'])[k] && (k < |line| ==> line[k] in line);
    }
    var out, z := CopiedOut(bytes, n), |CStrings.CString(cut, 0)|;
    assert CStrings.EndsAt(cut, 0, z) && cut[n - 1] == '\0';
    if |line| + 1 < n {
      assert z > |line|;
      var whole := line + ['\n'];
      forall k | 0 <= k <= |line| ensures out[k] == whole[k] {
        assert out[k] == CStrings.CString(cut, 0)[k] == cut[k];
      }
      assert out[..|line| + 1] == whole;
    } else {
      assert z == n - 1;
      forall k | 0 <= k < n - 1 ensures out[k] == line[k] {
        assert out[k] == CStrings.CString(cut, 0)[k] == cut[k] == (line + ['\n'])[k];
      }
    }
  }

  lemma StepRepresents(s: Room, e: Event, t: nat, m: Mailbox)
    requires AllSound(s) && Allowed(s, e) && t < |s.desks| && Represents(s.desks[t], m)
    ensures var own := Concerning(e, s.current, t);
            if own == [] then Represents(Step(s, e).desks[t], m)
            else own == [own[0]] && Represents(Step(s, e).desks[t], MailboxStep(m, own[0]))
    ensures e == Complete(t) ==> m.phase.Ready?
  {
    hide Pressed, Cut;
    StepSound(s, e);
    if e.Press? && s.current == t && e.k == Enter && s.desks[t].waiting {
      ReceivedBegins(s.desks[t].bytes, m.session.text);
    }
  }

  lemma ReceivedBegins(bytes: seq<char>, line: string)
    requires |bytes| == LINE_BYTES && |line| < LINE_BYTES
    ensures Begins(Received(bytes, line), line)
  {
    assert (line + ['\n'] + bytes[|line| + 1..])[..|line| + 1] == line + ['\n'];
  }

  /** Whatever is interleaved, on whatever terminals, a terminal's reads return what its mailbox
      delivers. */
  lemma {:induction false} ReadsOverRuns(s: Room, es: seq<Event>, t: nat, m: Mailbox)
    requires AllSound(s) && Legal(s, es) && t < |s.desks| && Represents(s.desks[t], m)
    ensures Pressable(Projected(es, s.current, t))
    ensures var os, ds := Outcomes(s, es, t), Deliveries(m, Projected(es, s.current, t));
            |os| == |ds| && forall i :: 0 <= i < |os| ==> Fulfils(os[i], ds[i])
    decreases |es|
  {
    hide Pressed, Proper, Represents, Fulfils, Returned, MailboxStep, Step, Received, Cut;
    if es != [] {
      var e, own := es[0], Concerning(es[0], s.current, t);
      StepSound(s, e);
      StepRepresents(s, e, t, m);
      StepCurrent(s, e);
      RepresentsProper(s.desks[t], m);
      var rest := Projected(es[1..], Step(s, e).current, t);
      assert Projected(es, s.current, t) == own + rest;
      if own == [] {
        ReadsOverRuns(Step(s, e), es[1..], t, m);
        assert own + rest == rest;
      } else {
        ReadsOverRuns(Step(s, e), es[1..], t, MailboxStep(m, own[0]));
        assert (own + rest)[0] == own[0] && (own + rest)[1..] == rest;
        if e == Complete(t) {
          ReadFulfils(s.desks[t], m);
        }
      }
    }
  }

  lemma StepCurrent(s: Room, e: Event)
    requires AllSound(s) && Allowed(s, e)
    ensures Step(s, e).current == if e.Switch? then e.t else s.current
  {
  }

  lemma RepresentsProper(d: Desk, m: Mailbox)
    requires Represents(d, m)
    ensures Proper(m.session) && (m.phase.Ready? ==> Sound(d) && d.reader.Reading?)
  {
  }

  // ---------- The line that is delivered ----------

  function OwnKeys(keys: seq<Key>): (os: seq<Own>)
    ensures |os| == |keys| && forall i :: 0 <= i < |os| ==> os[i] == OwnKey(keys[i])
  {
    seq(|keys|, i requires 0 <= i < |keys| => OwnKey(keys[i]))
  }

  ghost function MailboxAfter(m: Mailbox, os: seq<Own>): Mailbox
    requires Proper(m.session) && Pressable(os)
    decreases |os|
  {
    if os == [] then m
    else
      MailboxProper(m, os[0]);
      MailboxAfter(MailboxStep(m, os[0]), os[1..])
  }

  predicate FirstEnter(keys: seq<Key>, i: nat) {
    i < |keys| && keys[i] == Enter && forall k :: 0 <= k < i ==> keys[k] != Enter
  }

  /** A program that waits gets the line as it was edited up to the first Enter, whatever keys follow,
      and waits on as long as there is none. */
  lemma {:induction false} DeliversFirstEnter(m: Mailbox, keys: seq<Key>, i: nat)
    requires Proper(m.session) && m.phase.Waiting? && forall k :: k in keys ==> KeyPressable(k)
    requires FirstEnter(keys, i) || (i == |keys| && Enter !in keys)
    ensures forall k :: k in keys[..i] ==> KeyPressable(k)
    ensures MailboxAfter(m, OwnKeys(keys)).phase
         == if Enter in keys then Ready(m.phase.nbytes, PressedAll(m.session, keys[..i]).text) else m.phase
    decreases |keys|
  {
    hide Pressed, Proper;
    var os := OwnKeys(keys);
    if keys != [] {
      var next := MailboxStep(m, os[0]);
      MailboxProper(m, os[0]);
      assert os[1..] == OwnKeys(keys[1..]);
      if keys[0] == Enter {
        assert keys[..0] == [];
        ReadyStays(next, keys[1..]);
      } else {
        assert keys[..i][1..] == keys[1..][..i - 1];
        DeliversFirstEnter(next, keys[1..], i - 1);
      }
    }
  }

  lemma {:induction false} ReadyStays(m: Mailbox, keys: seq<Key>)
    requires Proper(m.session) && m.phase.Ready? && forall k :: k in keys ==> KeyPressable(k)
    ensures MailboxAfter(m, OwnKeys(keys)).phase == m.phase
    decreases |keys|
  {
    hide Pressed, Proper;
    var os := OwnKeys(keys);
    if keys != [] {
      MailboxProper(m, os[0]);
      assert os[1..] == OwnKeys(keys[1..]);
      ReadyStays(MailboxStep(m, os[0]), keys[1..]);
    }
  }
}
