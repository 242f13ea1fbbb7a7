/** What the blink driver's countdowns add up to over any number of ticks, and what the screen shows. */
module BlinkTiming {
  import opened Arith
  import opened Blink

  // ---------- One node ----------

  function TickTimes(b: Blinker, t: nat): Blinker {
    if t == 0 then b else Tick(TickTimes(b, t - 1))
  }

  /** How many ticks a length lasts: a zero, and anything that the signed comparison takes for negative
      once it has been decremented, lasts a single tick. */
  function Lasting(length: word): (n: nat)
    ensures 0 < n
  {
    if 1 <= length <= 0x8000 then length else 1
  }

  function Period(b: Blinker): (p: nat)
    ensures 0 < p
  {
    Lasting(b.onLength) + Lasting(b.offLength)
  }

  /** The node `r` ticks into its period. */
  ghost predicate AtPhase(b: Blinker, r: nat) {
    var on := Lasting(b.onLength);
    && r < Period(b)
    && b.status == (if r < on then 1 else 0)
    && b.countdown == if r < on then b.onLength - r else b.offLength - (r - on)
  }

  /** Two structures that differ at most in countdown and status. */
  predicate SameSettings(a: Blinker, b: Blinker) {
    a == b.(countdown := a.countdown, status := a.status)
  }

  lemma ExpiresAtEnd(countdown: word, length: word, r: nat)
    requires r < Lasting(length) && countdown == length - r
    ensures Signed(Dec(countdown)) <= 0 <==> r + 1 == Lasting(length)
    ensures r + 1 < Lasting(length) ==> Dec(countdown) == length - (r + 1)
  {
  }

  lemma PhaseStep(b: Blinker, r: nat)
    requires AtPhase(b, r)
    ensures AtPhase(Tick(b), if r + 1 == Period(b) then 0 else r + 1) && SameSettings(Tick(b), b)
  {
    var on := Lasting(b.onLength);
    if r < on {
      ExpiresAtEnd(b.countdown, b.onLength, r);
    } else {
      ExpiresAtEnd(b.countdown, b.offLength, r - on);
    }
  }

  /** The state of a node is a function of the time since it was added, for every pair of lengths. */
  lemma {:induction false} ClosedForm(user: Blinker, t: nat)
    ensures AtPhase(TickTimes(Started(user), t), t % Period(user))
    ensures SameSettings(TickTimes(Started(user), t), user)
  {
    if t != 0 {
      ClosedForm(user, t - 1);
      PhaseStep(TickTimes(Started(user), t - 1), (t - 1) % Period(user));
      NextRemainder(t - 1, Period(user));
    }
  }

  predicate SameTiming(a: Blinker, b: Blinker) {
    a.onLength == b.onLength && a.offLength == b.offLength && a.countdown == b.countdown && a.status == b.status
  }

  lemma {:induction false} LockstepNodes(a: Blinker, b: Blinker, t: nat)
    requires SameTiming(a, b)
    ensures SameTiming(TickTimes(a, t), TickTimes(b, t))
  {
    if t != 0 {
      LockstepNodes(a, b, t - 1);
    }
  }

  // ---------- The whole device ----------

  function TickDeviceTimes(d: Device, t: nat): Device {
    if t == 0 then d else TickDevice(TickDeviceTimes(d, t - 1))
  }

  /** The nodes tick independently of one another. */
  lemma {:induction false} NodesTickAlone(d: Device, t: nat)
    ensures var nodes := TickDeviceTimes(d, t).nodes;
            |nodes| == |d.nodes| && forall i :: 0 <= i < |nodes| ==> nodes[i] == TickTimes(d.nodes[i], t)
  {
    if t != 0 {
      NodesTickAlone(d, t - 1);
    }
  }

  lemma {:induction false} TickKeepsSettings(b: Blinker, t: nat)
    ensures SameSettings(TickTimes(b, t), b)
  {
    if t != 0 {
      TickKeepsSettings(b, t - 1);
    }
  }

  /** Once synchronised, the two nodes agree after every later number of ticks. */
  lemma SyncLockstep(d: Device, first: word, second: word, t: nat)
    requires Find(d.nodes, first) < |d.nodes| && Find(d.nodes, second) < |d.nodes|
    ensures var nodes := TickDeviceTimes(SyncDevice(d, first, second), t).nodes;
            var i, j := Find(d.nodes, first), Find(d.nodes, second);
            |nodes| == |d.nodes| && SameTiming(nodes[i], nodes[j])
  {
    var synced := SyncDevice(d, first, second);
    var i, j := Find(d.nodes, first), Find(d.nodes, second);
    NodesTickAlone(synced, t);
    LockstepNodes(synced.nodes[i], synced.nodes[j], t);
  }

  // ---------- The screen ----------

  function CharOf(b: Blinker): char {
    if IsOn(b) then b.onChar else b.offChar
  }

  /** No two nodes at one place, and every place on the screen. */
  ghost predicate Spread(d: Device) {
    && |d.screen| == 2 * SLOTS
    && (forall i :: 0 <= i < |d.nodes| ==> d.nodes[i].location < SLOTS)
    && (forall i, j :: 0 <= i < j < |d.nodes| ==> d.nodes[i].location != d.nodes[j].location)
  }

  /** The screen shows each node as its status says. */
  ghost predicate Shown(d: Device) {
    Spread(d) && forall i :: 0 <= i < |d.nodes| ==> d.screen[2 * d.nodes[i].location] == CharOf(d.nodes[i])
  }

  lemma {:induction false} TickScreenElsewhere(nodes: seq<Blinker>, screen: seq<char>, a: nat)
    requires a < |screen| && forall i :: 0 <= i < |nodes| ==> 2 * nodes[i].location != a
    ensures TickScreen(nodes, screen)[a] == screen[a]
  {
    if nodes != [] {
      var b := nodes[0];
      TickScreenElsewhere(nodes[1..],
                          if Expires(b) then Poke(screen, b.location, if IsOn(b) then b.offChar else b.onChar)
                                      else screen, a);
    }
  }

  lemma {:induction false} TickScreenAt(d: Device, k: nat)
    requires Spread(d) && k < |d.nodes|
    ensures var b := d.nodes[k];
            TickScreen(d.nodes, d.screen)[2 * b.location] == if Expires(b) then CharOf(Tick(b))
              else d.screen[2 * b.location]
    decreases k
  {
    var b := d.nodes[0];
    var screen := if Expires(b) then Poke(d.screen, b.location, if IsOn(b) then b.offChar else b.onChar) else d.screen;
    if k == 0 {
      TickScreenElsewhere(d.nodes[1..], screen, 2 * b.location);
    } else {
      var rest := Device(d.nodes[1..], screen);
      assert rest.nodes[k - 1] == d.nodes[k];
      TickScreenAt(rest, k - 1);
    }
  }

  // ---------- What each operation draws ----------

  /** Wherever it is added, on a blank place or on top of other nodes, a node is drawn at once as on, and no other byte
      changes; it enters the list in front of the others. */
  lemma AddDraws(d: Device, user: Blinker, a: nat)
    requires Accepts(d, user) && |d.screen| == 2 * SLOTS && a < |d.screen|
    ensures var r := AddDevice(d, user);
            && |r.screen| == |d.screen| && r.screen[a] == (if a == 2 * user.location then user.onChar else d.screen[a])
            && |r.nodes| == |d.nodes| + 1 && r.nodes[1..] == d.nodes
            && SameSettings(r.nodes[0], user) && AtPhase(r.nodes[0], 0)
  {
    assert AddDevice(d, user).nodes[1..] == d.nodes;
  }

  /** A node is added if and only if its place is on the screen and the list has fewer than 2000 nodes. */
  lemma AddAccepts(d: Device, user: Blinker)
    ensures AddDevice(d, user) == d <==> user.location >= 2000 || |d.nodes| >= 2000
    ensures user.location < 2000 && |d.nodes| < 2000 ==> |AddDevice(d, user).nodes| == |d.nodes| + 1
  {
  }

  /** The node at position `k` of the list changes in this tick, at byte `a`. */
  ghost predicate ChangesAt(nodes: seq<Blinker>, a: nat, k: int) {
    0 <= k < |nodes| && 2 * nodes[k].location == a && Expires(nodes[k])
  }

  lemma {:induction false} TickKeepsByte(nodes: seq<Blinker>, screen: seq<char>, a: nat)
    requires a < |screen| && forall i :: !ChangesAt(nodes, a, i)
    ensures TickScreen(nodes, screen)[a] == screen[a]
  {
    if nodes != [] {
      var b := nodes[0];
      assert !ChangesAt(nodes, a, 0);
      ChangesLater(nodes, a);
      var drawn := if Expires(b) then Poke(screen, b.location, if IsOn(b) then b.offChar else b.onChar) else screen;
      TickKeepsByte(nodes[1..], drawn, a);
    }
  }

  lemma ChangesLater(nodes: seq<Blinker>, a: nat)
    requires nodes != []
    ensures forall i :: ChangesAt(nodes[1..], a, i) ==> ChangesAt(nodes, a, i + 1)
  {
  }

  /** A place where no node changes keeps its character; if several nodes at one place change in the same tick, what is
      seen is the last one in the list, as on if it was off and as off if it was on. */
  lemma {:induction false} TickDraws(nodes: seq<Blinker>, screen: seq<char>, a: nat, k: nat)
    requires a < |screen| && ChangesAt(nodes, a, k) && forall i :: i > k ==> !ChangesAt(nodes, a, i)
    ensures TickScreen(nodes, screen)[a] == if IsOn(nodes[k]) then nodes[k].offChar else nodes[k].onChar
  {
    var b := nodes[0];
    var drawn := if Expires(b) then Poke(screen, b.location, if IsOn(b) then b.offChar else b.onChar) else screen;
    ChangesLater(nodes, a);
    if k == 0 {
      TickKeepsByte(nodes[1..], drawn, a);
    } else {
      TickDraws(nodes[1..], drawn, a, k - 1);
    }
  }

  /** Synchronisation gives the newest node at the second place the timing of the newest at the first, and draws it as
      off; no other node and no other byte changes. Without a node at either place nothing happens. */
  lemma SyncDraws(d: Device, first: word, second: word, a: nat)
    requires |d.screen| == 2 * SLOTS && a < |d.screen| && second < SLOTS
    ensures var r, i, j := SyncDevice(d, first, second), Find(d.nodes, first), Find(d.nodes, second);
            if i == |d.nodes| || j == |d.nodes| then r == d
            else
              && |r.screen| == |d.screen|
              && r.screen[a] == (if a == 2 * second then d.nodes[j].offChar else d.screen[a])
              && |r.nodes| == |d.nodes| && SameTiming(r.nodes[j], d.nodes[i]) && r.nodes[j].location == second
              && r.nodes[j].onChar == d.nodes[j].onChar && r.nodes[j].offChar == d.nodes[j].offChar
              && forall k :: 0 <= k < |d.nodes| && k != j ==> r.nodes[k] == d.nodes[k]
  {
  }

  /** Removing takes the newest node at the place out of the list, and leaves the screen as it is. */
  lemma RemoveTakes(d: Device, location: word)
    ensures var r, k := RemoveDevice(d, location), Find(d.nodes, location);
            && r.screen == d.screen && (k == |d.nodes| ==> r == d)
            && (k < |d.nodes| ==>
                  d.nodes[k].location == location && d.nodes == r.nodes[..k] + [d.nodes[k]] + r.nodes[k..])
  {
  }

  lemma {:induction false} StaysShown(d: Device, t: nat)
    requires Shown(d)
    ensures Shown(TickDeviceTimes(d, t))
  {
    if t != 0 {
      StaysShown(d, t - 1);
      TickStaysShown(TickDeviceTimes(d, t - 1));
    }
  }

  lemma TickStaysShown(d: Device)
    requires Shown(d)
    ensures Shown(TickDevice(d))
  {
    forall k | 0 <= k < |d.nodes|
      ensures TickScreen(d.nodes, d.screen)[2 * d.nodes[k].location] == CharOf(Tick(d.nodes[k]))
    {
      TickScreenAt(d, k);
    }
  }

  /** A cell that no node is at never changes. */
  lemma {:induction false} ElsewhereUntouched(d: Device, t: nat, a: nat)
    requires a < |d.screen| && forall i :: 0 <= i < |d.nodes| ==> 2 * d.nodes[i].location != a
    ensures |TickDeviceTimes(d, t).screen| == |d.screen| && TickDeviceTimes(d, t).screen[a] == d.screen[a]
  {
    if t != 0 {
      ElsewhereUntouched(d, t - 1, a);
      NodesTickAlone(d, t - 1);
      var before := TickDeviceTimes(d, t - 1);
      forall i | 0 <= i < |before.nodes| ensures 2 * before.nodes[i].location != a {
        TickKeepsSettings(d.nodes[i], t - 1);
      }
      TickScreenElsewhere(before.nodes, before.screen, a);
    }
  }

  /** Adding at a new place shows the new node and keeps the others shown. */
  lemma AddStaysShown(d: Device, user: Blinker)
    requires Shown(d) && Accepts(d, user)
    requires forall i :: 0 <= i < |d.nodes| ==> d.nodes[i].location != user.location
    ensures Shown(AddDevice(d, user))
  {
  }

  /** After synchronisation the screen agrees with the second node exactly when the first is off, or
      the second has the same character either way: the code draws the off character always. */
  lemma SyncShown(d: Device, first: word, second: word)
    requires Shown(d) && Find(d.nodes, first) < |d.nodes| && Find(d.nodes, second) < |d.nodes|
    ensures var from, to := d.nodes[Find(d.nodes, first)], d.nodes[Find(d.nodes, second)];
            Shown(SyncDevice(d, first, second)) <==> !IsOn(from) || to.onChar == to.offChar
  {
    var i, j := Find(d.nodes, first), Find(d.nodes, second);
    var s := SyncDevice(d, first, second);
    assert forall k :: 0 <= k < |s.nodes| && k != j ==> s.nodes[k] == d.nodes[k] && s.nodes[k].location != second;
    assert s.nodes[j].location == second && s.screen[2 * second] == s.nodes[j].offChar;
  }

  /** For example two nodes that are added to an empty list and synchronised before the first tick: both are
      on, and the screen shows the second as off. */
  lemma SyncMisshows(screen: seq<char>, a: Blinker, b: Blinker)
    requires |screen| == 2 * SLOTS && a.location == 40 && b.location == 540 && b.onChar != b.offChar
    ensures var d := AddDevice(AddDevice(Device([], screen), a), b);
            && Shown(d) && Find(d.nodes, 40) < |d.nodes| && Find(d.nodes, 540) < |d.nodes|
            && !Shown(SyncDevice(d, 40, 540))
  {
    var one := AddDevice(Device([], screen), a);
    AddStaysShown(Device([], screen), a);
    AddStaysShown(one, b);
    var d := AddDevice(one, b);
    assert d.nodes == [Started(b), Started(a)];
    SyncShown(d, 40, 540);
  }

  /** Removing takes back an addition, and otherwise deletes the newest node at the location only. */
  lemma RemoveNewest(d: Device, user: Blinker, location: word)
    requires Accepts(d, user)
    ensures var after := RemoveDevice(AddDevice(d, user), location).nodes;
            after == if location == user.location then d.nodes else [Started(user)] + RemoveDevice(d, location).nodes
  {
    hide Without;
    var added := AddDevice(d, user).nodes;
    assert added[1..] == d.nodes;
    if location == user.location {
      WithoutFirst(Started(user), d.nodes);
    } else {
      var k := Find(d.nodes, location);
      assert Find(added, location) == 1 + k;
      if k < |d.nodes| {
        WithoutLater(Started(user), d.nodes, k);
      }
    }
  }

  lemma WithoutFirst(b: Blinker, nodes: seq<Blinker>)
    ensures Without([b] + nodes, 0) == nodes
  {
  }

  lemma WithoutLater(b: Blinker, nodes: seq<Blinker>, k: nat)
    requires k < |nodes|
    ensures Without([b] + nodes, k + 1) == [b] + Without(nodes, k)
  {
    assert ([b] + nodes)[..k + 1] == [b] + nodes[..k] && ([b] + nodes)[k + 2..] == nodes[k + 1..];
  }
}
