/** The whole fish program: once the pictures take turns, a visitor is added in the middle of them, timed like
    the first cell of the pictures, and removed again. */
module Fish {
  import opened Animation
  import opened Blink
  import opened BlinkTiming
  import opened Frames
  import opened TextRows

  const WAIT: nat := 100
  const FIRST: word := 40
  const ROW: nat := 6
  const COLUMN: nat := 20
  const PLACE: word := 6 * 80 + 60
  const VISITOR: Blinker := Blinker(PLACE, 'I', 'M', 7, 6, 0, 0)

  /** The device `u` ticks after the visitor was added. */
  function Visited(d: Device, u: nat): Device {
    TickDeviceTimes(AddDevice(d, VISITOR), u)
  }

  /** `u` ticks after it was synchronised. */
  function Synchronised(d: Device, u: nat): Device {
    TickDeviceTimes(SyncDevice(Visited(d, WAIT), FIRST, PLACE), u)
  }

  /** `u` ticks after it was removed. */
  function Left(d: Device, u: nat): Device {
    TickDeviceTimes(RemoveDevice(Synchronised(d, WAIT), PLACE), u)
  }

  // ---------- What the visitor does not touch ----------

  ghost predicate AgreeBut(s: seq<char>, t: seq<char>, a: nat) {
    |s| == |t| && forall i :: 0 <= i < |s| && i != a ==> s[i] == t[i]
  }

  /** The same nodes behind a newer one at the visitor's place, and the same screen elsewhere. */
  ghost predicate Beside(d: Device, e: Device) {
    && d.nodes != [] && d.nodes[0].location == PLACE && d.nodes[1..] == e.nodes
    && AgreeBut(d.screen, e.screen, 2 * PLACE)
  }

  ghost predicate SameElsewhere(d: Device, e: Device) {
    d.nodes == e.nodes && AgreeBut(d.screen, e.screen, 2 * PLACE)
  }

  /** What a byte becomes depends on that byte only. */
  lemma {:induction false} TickScreenLocal(nodes: seq<Blinker>, s: seq<char>, t: seq<char>, a: nat)
    requires |s| == |t| && a < |s| && s[a] == t[a]
    ensures TickScreen(nodes, s)[a] == TickScreen(nodes, t)[a]
  {
    if nodes != [] {
      var b := nodes[0];
      var c := if IsOn(b) then b.offChar else b.onChar;
      TickScreenLocal(nodes[1..], if Expires(b) then Poke(s, b.location, c) else s,
                      if Expires(b) then Poke(t, b.location, c) else t, a);
    }
  }

  lemma TickAgrees(nodes: seq<Blinker>, s: seq<char>, t: seq<char>, a: nat)
    requires AgreeBut(s, t, a)
    ensures AgreeBut(TickScreen(nodes, s), TickScreen(nodes, t), a)
  {
    forall i | 0 <= i < |s| && i != a ensures TickScreen(nodes, s)[i] == TickScreen(nodes, t)[i] {
      TickScreenLocal(nodes, s, t, i);
    }
  }

  lemma TickBeside(d: Device, e: Device)
    requires Beside(d, e)
    ensures Beside(TickDevice(d), TickDevice(e))
  {
    hide AgreeBut, Expires;
    var b := d.nodes[0];
    var c := if IsOn(b) then b.offChar else b.onChar;
    var drawn := if Expires(b) then Poke(d.screen, b.location, c) else d.screen;
    PokeAgrees(d.screen, e.screen, c);
    TickAgrees(e.nodes, drawn, e.screen, 2 * PLACE);
    assert TickAll(d.nodes)[1..] == TickAll(e.nodes);
  }

  lemma PokeAgrees(s: seq<char>, t: seq<char>, c: char)
    requires AgreeBut(s, t, 2 * PLACE)
    ensures AgreeBut(Poke(s, PLACE, c), t, 2 * PLACE)
  {
  }

  lemma {:induction false} BesideLater(d: Device, e: Device, t: nat)
    requires Beside(d, e)
    ensures Beside(TickDeviceTimes(d, t), TickDeviceTimes(e, t))
  {
    hide Beside;
    if t != 0 {
      BesideLater(d, e, t - 1);
      TickBeside(TickDeviceTimes(d, t - 1), TickDeviceTimes(e, t - 1));
    }
  }

  lemma {:induction false} SameLater(d: Device, e: Device, t: nat)
    requires SameElsewhere(d, e)
    ensures SameElsewhere(TickDeviceTimes(d, t), TickDeviceTimes(e, t))
  {
    hide AgreeBut;
    if t != 0 {
      SameLater(d, e, t - 1);
      var before, was := TickDeviceTimes(d, t - 1), TickDeviceTimes(e, t - 1);
      TickAgrees(before.nodes, before.screen, was.screen, 2 * PLACE);
    }
  }

  lemma {:induction false} TicksAdd(d: Device, t: nat, u: nat)
    ensures TickDeviceTimes(TickDeviceTimes(d, t), u) == TickDeviceTimes(d, t + u)
  {
    if u != 0 {
      TicksAdd(d, t, u - 1);
    }
  }

  lemma AddBeside(d: Device)
    requires Accepts(d, VISITOR)
    ensures Beside(AddDevice(d, VISITOR), d)
  {
    assert AddDevice(d, VISITOR).nodes[1..] == d.nodes;
  }

  lemma SyncBeside(d: Device, e: Device)
    requires Beside(d, e)
    ensures Beside(SyncDevice(d, FIRST, PLACE), e)
  {
    FindFirst(d.nodes);
    var i := Find(d.nodes, FIRST);
    if i < |d.nodes| {
      PokeAgrees(d.screen, e.screen, d.nodes[0].offChar);
      assert d.nodes[0 := Timed(d.nodes[i], d.nodes[0])][1..] == d.nodes[1..];
    }
  }

  lemma FindFirst(nodes: seq<Blinker>)
    requires nodes != [] && nodes[0].location == PLACE
    ensures Find(nodes, PLACE) == 0 && Find(nodes, FIRST) != 0
  {
  }

  lemma RemoveSame(d: Device, e: Device)
    requires Beside(d, e)
    ensures SameElsewhere(RemoveDevice(d, PLACE), e)
  {
    hide AgreeBut;
    FindFirst(d.nodes);
    assert Without(d.nodes, 0) == d.nodes[1..];
  }

  /** With or without the visitor, the nodes of the pictures go on as they would, and so does the screen
      everywhere else. */
  lemma VisitorKeeps(d: Device, u: nat)
    requires Accepts(d, VISITOR)
    ensures Beside(Visited(d, u), TickDeviceTimes(d, u))
    ensures Beside(Synchronised(d, u), TickDeviceTimes(d, WAIT + u))
    ensures SameElsewhere(Left(d, u), TickDeviceTimes(d, 2 * WAIT + u))
  {
    hide AddDevice, SyncDevice, RemoveDevice, TickDeviceTimes, Beside, SameElsewhere;
    AddBeside(d);
    BesideLater(AddDevice(d, VISITOR), d, u);
    BesideLater(AddDevice(d, VISITOR), d, WAIT);
    var one, two := TickDeviceTimes(d, WAIT), TickDeviceTimes(d, 2 * WAIT);
    SyncBeside(Visited(d, WAIT), one);
    BesideLater(SyncDevice(Visited(d, WAIT), FIRST, PLACE), one, u);
    TicksAdd(d, WAIT, u);
    BesideLater(SyncDevice(Visited(d, WAIT), FIRST, PLACE), one, WAIT);
    TicksAdd(d, WAIT, WAIT);
    RemoveSame(Synchronised(d, WAIT), two);
    SameLater(RemoveDevice(Synchronised(d, WAIT), PLACE), two, u);
    TicksAdd(d, 2 * WAIT, u);
  }

  // ---------- The nodes of the pictures ----------

  /** Each node of the pictures is at the place of its user, and `t` ticks into its time. */
  lemma PictureNode(screen: seq<char>, file0: string, file1: string, t: nat, i: nat)
    requires |screen| == 2 * SLOTS && FitsScreen(file0) && FitsScreen(file1)
    requires i < |Animated(screen, file0, file1, t).nodes|
    ensures var b := Animated(screen, file0, file1, t).nodes[i];
            AtPhase(b, t % 30) && b.onLength == b.offLength == LENGTH
    ensures exists u :: u in FrameUsers(file0, file1, Height(file0, file1))
                        && u.location == Animated(screen, file0, file1, t).nodes[i].location
  {
    hide FrameUsers, FitsScreen, IsCell, Fresh, AddAll, TickTimes, TickDeviceTimes, Shown;
    var users := FrameUsers(file0, file1, Height(file0, file1));
    UsersFit(file0, file1);
    AllAdded(screen, users);
    var d := AddAll(Device([], screen), users);
    NodesTickAlone(d, t);
    var u := users[|users| - 1 - i];
    assert d.nodes[|users| - 1 - (|users| - 1 - i)] == Started(u);
    UserLengths(u, file0, file1);
    ClosedForm(u, t);
  }

  lemma UserLengths(u: Blinker, file0: string, file1: string)
    requires IsCell(u, file0, file1)
    ensures u.onLength == u.offLength == LENGTH && Period(u) == 30
  {
  }

  /** The pictures leave room for one more node, and are shown. */
  lemma PicturesShown(screen: seq<char>, file0: string, file1: string, t: nat)
    requires |screen| == 2 * SLOTS && FitsScreen(file0) && FitsScreen(file1)
    ensures Shown(Animated(screen, file0, file1, t)) && Accepts(Animated(screen, file0, file1, t), VISITOR)
  {
    hide FrameUsers, FitsScreen, IsCell, AddAll, TickDeviceTimes, Shown;
    var users := FrameUsers(file0, file1, Height(file0, file1));
    UsersFit(file0, file1);
    AllAdded(screen, users);
    var d := AddAll(Device([], screen), users);
    NodesTickAlone(d, t);
    StaysShown(d, t);
    if users != [] {
      RisingPlaces(users, |users| - 1);
    }
  }

  lemma UserNode(screen: seq<char>, file0: string, file1: string, t: nat, u: Blinker) returns (i: nat)
    requires |screen| == 2 * SLOTS && FitsScreen(file0) && FitsScreen(file1)
    requires u in FrameUsers(file0, file1, Height(file0, file1))
    ensures var nodes := Animated(screen, file0, file1, t).nodes; i < |nodes| && nodes[i].location == u.location
  {
    hide FrameUsers, FitsScreen, IsCell, Fresh, AddAll, TickTimes, TickDeviceTimes, Shown;
    var users := FrameUsers(file0, file1, Height(file0, file1));
    UsersFit(file0, file1);
    AllAdded(screen, users);
    var d := AddAll(Device([], screen), users);
    NodesTickAlone(d, t);
    var k :| 0 <= k < |users| && users[k] == u;
    i := |users| - 1 - k;
    assert d.nodes[|users| - 1 - k] == Started(u);
    TickKeepsSettings(Started(u), t);
  }

  lemma AnimatedOn(screen: seq<char>, file0: string, file1: string, t: nat, u: nat)
    ensures TickDeviceTimes(Animated(screen, file0, file1, t), u) == Animated(screen, file0, file1, t + u)
  {
    hide TickDeviceTimes, FrameUsers;
    TicksAdd(AddAll(Device([], screen), FrameUsers(file0, file1, Height(file0, file1))), t, u);
  }

  // ---------- The visitor's place ----------

  /** No node is at the place. */
  ghost predicate NoneAt(nodes: seq<Blinker>, location: word) {
    forall k :: 0 <= k < |nodes| ==> nodes[k].location != location
  }

  /** All nodes of the pictures change together. */
  ghost predicate InTurn(e: Device, t: nat) {
    && Shown(e)
    && forall k :: 0 <= k < |e.nodes| ==>
         AtPhase(e.nodes[k], t % 30) && e.nodes[k].onLength == e.nodes[k].offLength == LENGTH
  }

  /** The visitor, which changed `age` ticks ago, is seen if the picture has nothing there, or changed earlier. */
  ghost predicate Seen(d: Device, e: Device, t: nat, age: nat) {
    && Beside(d, e) && InTurn(e, t) && |d.screen| == 2 * SLOTS
    && d.screen[2 * PLACE] == if NoneAt(e.nodes, PLACE) || age < t % 15 then CharOf(d.nodes[0]) else e.screen[2 * PLACE]
  }

  lemma ExpiresInPhase(b: Blinker, r: nat)
    requires AtPhase(b, r)
    ensures Expires(b) <==> r + 1 == Lasting(b.onLength) || r + 1 == Period(b)
    ensures !Expires(b) ==> CharOf(Tick(b)) == CharOf(b)
  {
    var on := Lasting(b.onLength);
    if r < on {
      ExpiresAtEnd(b.countdown, b.onLength, r);
    } else {
      ExpiresAtEnd(b.countdown, b.offLength, r - on);
    }
  }

  lemma TickInTurn(e: Device, t: nat)
    requires InTurn(e, t)
    ensures InTurn(TickDevice(e), t + 1)
    ensures forall k :: 0 <= k < |e.nodes| ==> (Expires(e.nodes[k]) <==> (t + 1) % 15 == 0)
  {
    hide Shown, Tick, AtPhase, Expires, TickScreen;
    TickStaysShown(e);
    forall k | 0 <= k < |e.nodes|
      ensures AtPhase(Tick(e.nodes[k]), (t + 1) % 30) && SameSettings(Tick(e.nodes[k]), e.nodes[k])
      ensures Expires(e.nodes[k]) <==> (t + 1) % 15 == 0
    {
      PhaseStep(e.nodes[k], t % 30);
      ExpiresInPhase(e.nodes[k], t % 30);
    }
  }

  /** What becomes of the visitor's place if a picture has a node there. */
  lemma TickBoth(d: Device, e: Device, k: nat)
    requires Beside(d, e) && Spread(e) && |d.screen| == 2 * SLOTS && k < |e.nodes| && e.nodes[k].location == PLACE
    ensures var v, now := d.nodes[0], TickDevice(d).screen[2 * PLACE];
            if Expires(e.nodes[k]) then now == TickDevice(e).screen[2 * PLACE]
            else TickDevice(e).screen[2 * PLACE] == e.screen[2 * PLACE]
                 && now == if Expires(v) then CharOf(Tick(v)) else d.screen[2 * PLACE]
  {
    hide Expires, Tick;
    var v := d.nodes[0];
    var drawn := if Expires(v) then Poke(d.screen, PLACE, if IsOn(v) then v.offChar else v.onChar) else d.screen;
    if Expires(v) {
      ChangedChar(v);
    }
    TickScreenAt(e, k);
    TickScreenAt(Device(e.nodes, drawn), k);
  }

  lemma ChangedChar(b: Blinker)
    requires Expires(b)
    ensures CharOf(Tick(b)) == if IsOn(b) then b.offChar else b.onChar
  {
  }

  lemma TickAlone(d: Device, e: Device)
    requires Beside(d, e) && Spread(e) && |d.screen| == 2 * SLOTS && NoneAt(e.nodes, PLACE)
    ensures var v := d.nodes[0];
            TickDevice(d).screen[2 * PLACE] == if Expires(v) then CharOf(Tick(v)) else d.screen[2 * PLACE]
  {
    hide Expires, Tick;
    var v := d.nodes[0];
    var drawn := if Expires(v) then Poke(d.screen, PLACE, if IsOn(v) then v.offChar else v.onChar) else d.screen;
    if Expires(v) {
      ChangedChar(v);
    }
    TickScreenElsewhere(e.nodes, drawn, 2 * PLACE);
  }

  lemma UnchangedChar(b: Blinker)
    requires !Expires(b)
    ensures CharOf(Tick(b)) == CharOf(b)
  {
  }

  lemma TickSeen(d: Device, e: Device, t: nat, age: nat)
    requires Seen(d, e, t, age)
    ensures Seen(TickDevice(d), TickDevice(e), t + 1, if Expires(d.nodes[0]) then 0 else age + 1)
  {
    hide Expires, Tick, TickScreen, CharOf, InTurn, AgreeBut;
    var v := d.nodes[0];
    if !Expires(v) {
      UnchangedChar(v);
    }
    TickBeside(d, e);
    TickInTurn(e, t);
    TurnIsSpread(e, t);
    SamePlaces(e);
    if NoneAt(e.nodes, PLACE) {
      TickAlone(d, e);
    } else {
      var k :| 0 <= k < |e.nodes| && e.nodes[k].location == PLACE;
      TickBoth(d, e, k);
    }
  }

  lemma TurnIsSpread(e: Device, t: nat)
    requires InTurn(e, t)
    ensures Spread(e)
  {
  }

  lemma SamePlaces(e: Device)
    ensures NoneAt(TickAll(e.nodes), PLACE) <==> NoneAt(e.nodes, PLACE)
  {
    assert forall k :: 0 <= k < |e.nodes| ==> TickAll(e.nodes)[k].location == e.nodes[k].location;
  }

  // ---------- While it is there ----------

  lemma PicturesInTurn(screen: seq<char>, file0: string, file1: string, t: nat)
    requires |screen| == 2 * SLOTS && FitsScreen(file0) && FitsScreen(file1)
    ensures InTurn(Animated(screen, file0, file1, t), t) && Accepts(Animated(screen, file0, file1, t), VISITOR)
  {
    hide FrameUsers, FitsScreen, Animated, AtPhase, Shown;
    PicturesShown(screen, file0, file1, t);
    var e := Animated(screen, file0, file1, t);
    forall k | 0 <= k < |e.nodes|
      ensures AtPhase(e.nodes[k], t % 30) && e.nodes[k].onLength == e.nodes[k].offLength == LENGTH
    {
      PictureNode(screen, file0, file1, t, k);
    }
  }

  /** How long ago a node with these lengths, `r` ticks into its period, changed. */
  function AgeAt(r: nat, on: nat): nat {
    if r < on then r else r - on
  }

  /** The visitor in the time that it was added with. */
  ghost predicate OwnTime(b: Blinker, u: nat) {
    AtPhase(b, u % 13) && SameSettings(b, VISITOR)
  }

  lemma OwnTimeNext(b: Blinker, u: nat)
    requires OwnTime(b, u)
    ensures OwnTime(Tick(b), u + 1)
    ensures AgeAt((u + 1) % 13, 7) == if Expires(b) then 0 else AgeAt(u % 13, 7) + 1
  {
    hide AtPhase, Tick, Expires;
    PhaseStep(b, u % 13);
    ExpiresInPhase(b, u % 13);
  }

  lemma {:induction false} VisitedSeen(screen: seq<char>, file0: string, file1: string, u: nat)
    requires |screen| == 2 * SLOTS && FitsScreen(file0) && FitsScreen(file1)
    ensures var d := Visited(Animated(screen, file0, file1, WAIT), u);
            && Seen(d, Animated(screen, file0, file1, WAIT + u), WAIT + u, AgeAt(u % 13, 7))
            && OwnTime(d.nodes[0], u)
  {
    hide FrameUsers, FitsScreen, Animated, OwnTime, Seen, InTurn, Tick, AgeAt, Expires, AddDevice;
    var start := Animated(screen, file0, file1, WAIT);
    PicturesInTurn(screen, file0, file1, WAIT);
    if u == 0 {
      VisitorAdded(start);
    } else {
      var d, e := Visited(start, u - 1), Animated(screen, file0, file1, WAIT + u - 1);
      VisitedSeen(screen, file0, file1, u - 1);
      SeenFirst(d, e, WAIT + u - 1, AgeAt((u - 1) % 13, 7));
      OwnTimeNext(d.nodes[0], u - 1);
      TickSeen(d, e, WAIT + u - 1, AgeAt((u - 1) % 13, 7));
      AnimatedNext(screen, file0, file1, WAIT + u - 1);
    }
  }

  lemma SeenFirst(d: Device, e: Device, t: nat, age: nat)
    requires Seen(d, e, t, age)
    ensures d.nodes != [] && TickDevice(d).nodes[0] == Tick(d.nodes[0])
  {
  }

  lemma AnimatedNext(screen: seq<char>, file0: string, file1: string, t: nat)
    ensures TickDevice(Animated(screen, file0, file1, t)) == Animated(screen, file0, file1, t + 1)
  {
    hide FrameUsers, TickDevice, AddAll;
  }

  lemma VisitorAdded(start: Device)
    requires InTurn(start, WAIT) && Accepts(start, VISITOR)
    ensures var d := Visited(start, 0); Seen(d, start, WAIT, AgeAt(0, 7)) && OwnTime(d.nodes[0], 0)
  {
    hide InTurn, Beside;
    TurnIsSpread(start, WAIT);
    AddDraws(start, VISITOR, 2 * PLACE);
    AddBeside(start);
  }

  // ---------- While it is in step ----------

  /** The visitor in the time of the pictures. */
  ghost predicate TheirTime(b: Blinker, t: nat) {
    && AtPhase(b, t % 30) && b.onLength == b.offLength == LENGTH && b.onChar == VISITOR.onChar
    && b.offChar == VISITOR.offChar
  }

  function Lesser(a: nat, b: nat): nat {
    if a < b then a else b
  }

  lemma TheirTimeNext(b: Blinker, t: nat)
    requires TheirTime(b, t)
    ensures TheirTime(Tick(b), t + 1)
    ensures Expires(b) <==> (t + 1) % 15 == 0
  {
    hide AtPhase, Tick, Expires;
    PhaseStep(b, t % 30);
    ExpiresInPhase(b, t % 30);
  }

  /** If the pictures have a first cell, the visitor changes with them from then on. */
  lemma {:induction false} InStepSeen(screen: seq<char>, file0: string, file1: string, u: nat)
    requires |screen| == 2 * SLOTS && FitsScreen(file0) && FitsScreen(file1)
    requires !NoneAt(Animated(screen, file0, file1, 2 * WAIT).nodes, FIRST)
    ensures var d, t := Synchronised(Animated(screen, file0, file1, WAIT), u), 2 * WAIT + u;
            && Seen(d, Animated(screen, file0, file1, t), t, Lesser(u, t % 15)) && TheirTime(d.nodes[0], t)
  {
    hide FrameUsers, FitsScreen, Animated, TheirTime, OwnTime, Seen, Tick, Expires, SyncDevice, Visited, NoneAt;
    var start := Animated(screen, file0, file1, WAIT);
    if u == 0 {
      VisitedSeen(screen, file0, file1, WAIT);
      Joins(Visited(start, WAIT), Animated(screen, file0, file1, 2 * WAIT), AgeAt(WAIT % 13, 7));
    } else {
      var t := 2 * WAIT + u - 1;
      var d, e := Synchronised(start, u - 1), Animated(screen, file0, file1, t);
      InStepSeen(screen, file0, file1, u - 1);
      SeenFirst(d, e, t, Lesser(u - 1, t % 15));
      TheirTimeNext(d.nodes[0], t);
      TickSeen(d, e, t, Lesser(u - 1, t % 15));
      AnimatedNext(screen, file0, file1, t);
    }
  }

  /** Just synchronised, it is drawn as off over whatever was there. */
  lemma Joins(d: Device, e: Device, age: nat)
    requires Seen(d, e, 2 * WAIT, age) && OwnTime(d.nodes[0], WAIT) && !NoneAt(e.nodes, FIRST)
    ensures var r := SyncDevice(d, FIRST, PLACE); Seen(r, e, 2 * WAIT, 0) && TheirTime(r.nodes[0], 2 * WAIT)
  {
    hide Shown, AgreeBut, Find, NoneAt;
    FindFirst(d.nodes);
    FoundBehind(d.nodes, FIRST);
    SyncDraws(d, FIRST, PLACE, 2 * PLACE);
    SyncBeside(d, e);
    var i := Find(d.nodes, FIRST);
    assert d.nodes[i] == e.nodes[i - 1];
  }

  lemma FoundBehind(nodes: seq<Blinker>, location: word)
    requires nodes != []
    ensures !NoneAt(nodes[1..], location) ==> Find(nodes, location) < |nodes|
    ensures NoneAt(nodes[1..], location) && nodes[0].location != location ==> Find(nodes, location) == |nodes|
  {
    if !NoneAt(nodes[1..], location) {
      var k :| 0 <= k < |nodes[1..]| && nodes[1..][k].location == location;
      assert nodes[k + 1].location == location;
    }
  }

  /** If they have none, the synchronisation fails and the visitor goes on in its own time. */
  lemma OutOfStep(screen: seq<char>, file0: string, file1: string, u: nat)
    requires |screen| == 2 * SLOTS && FitsScreen(file0) && FitsScreen(file1)
    requires NoneAt(Animated(screen, file0, file1, 2 * WAIT).nodes, FIRST)
    ensures var start := Animated(screen, file0, file1, WAIT); Synchronised(start, u) == Visited(start, WAIT + u)
  {
    hide FrameUsers, FitsScreen, Animated, OwnTime, TickDeviceTimes, AddDevice, NoneAt, Find;
    var start := Animated(screen, file0, file1, WAIT);
    VisitedSeen(screen, file0, file1, WAIT);
    FindFirst(Visited(start, WAIT).nodes);
    FoundBehind(Visited(start, WAIT).nodes, FIRST);
    TicksAdd(AddDevice(start, VISITOR), WAIT, u);
  }

  // ---------- The theorem ----------

  /** Both pictures are blank at this cell. */
  predicate Empty(file0: string, file1: string, row: nat, col: nat) {
    Pixel(file0, row, col) == ' ' && Pixel(file1, row, col) == ' '
  }

  lemma NoneWhereEmpty(screen: seq<char>, file0: string, file1: string, t: nat, row: nat, col: nat)
    requires |screen| == 2 * SLOTS && FitsScreen(file0) && FitsScreen(file1) && row < ROWS && col < WIDTH
    ensures NoneAt(Animated(screen, file0, file1, t).nodes, LocationOf(row, col)) <==> Empty(file0, file1, row, col)
  {
    hide FrameUsers, FitsScreen, RowOf, Animated, IsCell, AtPhase, Pixel;
    var nodes := Animated(screen, file0, file1, t).nodes;
    CellsApart(row, col, 2 * CellOf(row, col));
    if Empty(file0, file1, row, col) {
      UsersFit(file0, file1);
      forall k | 0 <= k < |nodes| ensures nodes[k].location != LocationOf(row, col) {
        PictureNode(screen, file0, file1, t, k);
        var u :| u in FrameUsers(file0, file1, Height(file0, file1)) && u.location == nodes[k].location;
        NotHere(file0, file1, u, 2 * CellOf(row, col));
      }
    } else {
      UserPlaces(file0, file1, row, col);
      var i := UserNode(screen, file0, file1, t, UserAt(RowOf(file0, row), RowOf(file1, row), row, col));
    }
  }

  /** The screen of the pictures after `t` ticks, with the visitor, which changed to `c` `age` ticks ago. Of two at one
      place the one that changed last is seen, and the picture if they changed together. */
  function WithVisitor(screen: seq<char>, file0: string, file1: string, t: nat, a: nat, age: nat, c: char): char
    requires a < |screen|
  {
    if a == 2 * PLACE && (Empty(file0, file1, ROW, COLUMN) || age < t % 15) then c
    else Expected(screen, file0, file1, t, a)
  }

  lemma SeenShows(d: Device, screen: seq<char>, file0: string, file1: string, t: nat, a: nat, age: nat)
    requires |screen| == 2 * SLOTS && FitsScreen(file0) && FitsScreen(file1) && a < |screen|
    requires Seen(d, Animated(screen, file0, file1, t), t, age)
    ensures |d.screen| == |screen| && d.nodes != []
    ensures d.screen[a] == WithVisitor(screen, file0, file1, t, a, age, CharOf(d.nodes[0]))
  {
    hide Animated, FitsScreen, Expected, InTurn, NoneAt;
    AnimationShows(screen, file0, file1, t, a);
    NoneWhereEmpty(screen, file0, file1, t, ROW, COLUMN);
  }

  function Mark(on: bool): char {
    if on then 'I' else 'M'
  }

  /** Every byte of the screen while the visitor is there in its own time: 7 ticks on, 6 off. */
  lemma VisitorShows(screen: seq<char>, file0: string, file1: string, u: nat, a: nat)
    requires |screen| == 2 * SLOTS && FitsScreen(file0) && FitsScreen(file1) && a < |screen|
    ensures var d := Visited(Animated(screen, file0, file1, WAIT), u);
            && |d.screen| == |screen|
            && d.screen[a]
               == WithVisitor(screen, file0, file1, WAIT + u, a, AgeAt(u % 13, 7), Mark(u % 13 < 7))
  {
    hide Animated, FitsScreen, WithVisitor, Seen, Visited;
    VisitedSeen(screen, file0, file1, u);
    SeenShows(Visited(Animated(screen, file0, file1, WAIT), u), screen, file0, file1, WAIT + u, a, AgeAt(u % 13, 7));
  }

  /** And while it is in step: it changes with the pictures if they have a first cell, and otherwise goes on as
      before. */
  lemma InStepShows(screen: seq<char>, file0: string, file1: string, u: nat, a: nat)
    requires |screen| == 2 * SLOTS && FitsScreen(file0) && FitsScreen(file1) && a < |screen|
    ensures var d, t, own := Synchronised(Animated(screen, file0, file1, WAIT), u), 2 * WAIT + u, (WAIT + u) % 13;
            && |d.screen| == |screen|
            && d.screen[a]
               == if Empty(file0, file1, 0, 0) then
                    WithVisitor(screen, file0, file1, t, a, AgeAt(own, 7), Mark(own < 7))
                  else WithVisitor(screen, file0, file1, t, a, Lesser(u, t % 15), Mark(t % 30 < 15))
  {
    hide Animated, FitsScreen, WithVisitor, Seen, Visited, Synchronised, Empty, NoneAt;
    var start, t := Animated(screen, file0, file1, WAIT), 2 * WAIT + u;
    NoneWhereEmpty(screen, file0, file1, 2 * WAIT, 0, 0);
    if Empty(file0, file1, 0, 0) {
      OutOfStep(screen, file0, file1, u);
      VisitorShows(screen, file0, file1, WAIT + u, a);
    } else {
      InStepSeen(screen, file0, file1, u);
      SeenShows(Synchronised(start, u), screen, file0, file1, t, a, Lesser(u, t % 15));
    }
  }

  /** When the visitor is removed, its place shows its mark as on, or the picture. */
  lemma RemovedShows(screen: seq<char>, file0: string, file1: string)
    requires |screen| == 2 * SLOTS && FitsScreen(file0) && FitsScreen(file1)
    ensures var d, e := Left(Animated(screen, file0, file1, WAIT), 0), Animated(screen, file0, file1, 3 * WAIT);
            && SameElsewhere(d, e) && |d.screen| == |screen|
            && d.screen[2 * PLACE] == if Empty(file0, file1, ROW, COLUMN) then 'I' else e.screen[2 * PLACE]
  {
    hide Animated, FitsScreen, Expected, Synchronised, Empty, InTurn, Accepts, AgreeBut;
    var start := Animated(screen, file0, file1, WAIT);
    PicturesInTurn(screen, file0, file1, WAIT);
    VisitorKeeps(start, 0);
    AnimatedOn(screen, file0, file1, WAIT, 2 * WAIT);
    RemoveTakes(Synchronised(start, WAIT), PLACE);
    InStepShows(screen, file0, file1, WAIT, 2 * PLACE);
    AnimationShows(screen, file0, file1, 3 * WAIT, 2 * PLACE);
  }

  lemma MarkStays(d: Device, u: nat)
    requires |d.screen| == 2 * SLOTS && NoneAt(d.nodes, PLACE)
    ensures var later := TickDeviceTimes(d, u).screen;
            |later| == |d.screen| && later[2 * PLACE] == d.screen[2 * PLACE]
  {
    ElsewhereUntouched(d, u, 2 * PLACE);
  }

  /** Once it has been removed, every byte is as the pictures alone would have it, but for the visitor's place if both
      are blank there: nothing takes its character away. */
  lemma FishLeaves(screen: seq<char>, file0: string, file1: string, u: nat, a: nat)
    requires |screen| == 2 * SLOTS && FitsScreen(file0) && FitsScreen(file1) && a < |screen|
    ensures var d, t := Left(Animated(screen, file0, file1, WAIT), u), 3 * WAIT + u;
            && |d.screen| == |screen| && d.nodes == Animated(screen, file0, file1, t).nodes
            && d.screen[a] == if a == 2 * PLACE && Empty(file0, file1, ROW, COLUMN) then 'I'
                              else Expected(screen, file0, file1, t, a)
  {
    hide Animated, FitsScreen, Expected, NoneAt, TickDeviceTimes, Empty, RemoveDevice, Synchronised;
    var start, e := Animated(screen, file0, file1, WAIT), Animated(screen, file0, file1, 3 * WAIT);
    var d := Left(start, 0);
    RemovedShows(screen, file0, file1);
    TicksAdd(RemoveDevice(Synchronised(start, WAIT), PLACE), 0, u);
    SameLater(d, e, u);
    AnimatedOn(screen, file0, file1, 3 * WAIT, u);
    AnimationShows(screen, file0, file1, 3 * WAIT + u, a);
    NoneWhereEmpty(screen, file0, file1, 3 * WAIT, ROW, COLUMN);
    if Empty(file0, file1, ROW, COLUMN) {
      MarkStays(d, u);
    } else {
      assert d.screen == e.screen;
    }
  }

  // ---------- The program ----------

  /** The second part of the program: the visitor is added, synchronised and removed, with a wait after each.
      `garbage` is the structure on the stack, as it was before. */
  method Visit(driver: Driver, garbage: Blinker)
    requires driver.Valid() && Accepts(driver.View(), VISITOR)
    modifies driver, driver.pool, driver.vmem
    ensures driver.Valid() && driver.View() == Left(old(driver.View()), WAIT)
  {
    hide Linked, NodesOf, Find, TickDeviceTimes, AddDevice, SyncDevice, RemoveDevice;
    var visitor := garbage.(location := PLACE, onChar := 'I', offChar := 'M', onLength := 7, offLength := 6);
    AddIgnoresTiming(driver.View(), VISITOR, visitor);
    var ret := driver.IoctlAdd(visitor, 0);
    Wait(driver, WAIT);
    ret := driver.IoctlSync(FIRST * 0x10000 + PLACE);
    Wait(driver, WAIT);
    ret := driver.IoctlRemove(PLACE);
    Wait(driver, WAIT);
  }

  /** The program. */
  method Run(file0: Reader, file1: Reader, vmem: array<char>, garbage0: Blinker, garbage1: Blinker)
    returns (driver: Driver, ret: int)
    requires file0 != file1 && file0.pos == 0 && file1.pos == 0 && vmem.Length == 2 * SLOTS
    requires FitsScreen(file0.content) && FitsScreen(file1.content)
    modifies file0, file1, vmem
    ensures fresh(driver) && driver.Valid() && driver.vmem == vmem && ret == 0
    ensures driver.View().nodes == Animated(old(vmem[..]), file0.content, file1.content, 4 * WAIT).nodes
    ensures forall a :: 0 <= a < vmem.Length ==>
              vmem[a] == if a == 2 * PLACE && Empty(file0.content, file1.content, ROW, COLUMN) then 'I'
                         else Expected(old(vmem[..]), file0.content, file1.content, 4 * WAIT, a)
  {
    hide FitsScreen, Linked, NodesOf, Animated, Expected, Empty, Left, InTurn, Accepts;
    ghost var screen, f0, f1 := vmem[..], file0.content, file1.content;
    driver := Play(file0, file1, vmem, garbage1, WAIT);
    PicturesInTurn(screen, f0, f1, WAIT);
    Visit(driver, garbage0);
    FishLeaves(screen, f0, f1, WAIT, 0);
    forall a | 0 <= a < vmem.Length
      ensures vmem[a] == if a == 2 * PLACE && Empty(f0, f1, ROW, COLUMN) then 'I'
                         else Expected(screen, f0, f1, 4 * WAIT, a)
    {
      FishLeaves(screen, f0, f1, WAIT, a);
    }
    return driver, 0;
  }
}
