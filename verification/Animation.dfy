/** The whole animation: what the screen shows any number of ticks after both pictures were added. */
module Animation {
  import opened Blink
  import opened BlinkTiming
  import opened Frames
  import opened TextRows

  const ROWS: nat := 25
  const WIDTH: nat := 40

  /** The picture fits the right half of the screen. */
  predicate FitsScreen(file: string) {
    |Lines(file)| <= ROWS && forall row :: 0 <= row < |Lines(file)| ==> |Lines(file)[row]| <= WIDTH
  }

  /** Every user is at a place past the last one, and is the user of its own cell. */
  ghost predicate Ordered(users: seq<Blinker>, file0: string, file1: string, lo: nat, hi: nat) {
    && (forall k :: 0 <= k < |users| ==> lo <= users[k].location < hi)
    && (forall j, k :: 0 <= j < k < |users| ==> users[j].location < users[k].location)
    && (forall k :: 0 <= k < |users| ==> IsCell(users[k], file0, file1))
  }

  /** Cell numbers count the screen row by row. */
  function CellOf(row: nat, col: nat): nat {
    row * COLUMNS + col + OFFSET
  }

  ghost predicate IsCell(u: Blinker, file0: string, file1: string) {
    exists row: nat, col: nat ::
      && row < ROWS && col < WIDTH && u == UserAt(RowOf(file0, row), RowOf(file1, row), row, col)
      && !Blank(RowOf(file0, row), RowOf(file1, row), col)
  }

  lemma RowFits(file: string, row: nat)
    requires FitsScreen(file)
    ensures |RowOf(file, row)| <= WIDTH
  {
  }

  lemma OrderedConcat(a: seq<Blinker>, b: seq<Blinker>, file0: string, file1: string, lo: nat, mid: nat, hi: nat)
    requires lo <= mid <= hi && Ordered(a, file0, file1, lo, mid) && Ordered(b, file0, file1, mid, hi)
    ensures Ordered(a + b, file0, file1, lo, hi)
  {
    hide IsCell;
  }

  lemma OrderedWider(a: seq<Blinker>, file0: string, file1: string, lo: nat, hi: nat, lo': nat, hi': nat)
    requires lo' <= lo && hi <= hi' && Ordered(a, file0, file1, lo, hi)
    ensures Ordered(a, file0, file1, lo', hi')
  {
    hide IsCell;
  }

  lemma OneCell(file0: string, file1: string, row: nat, col: nat)
    requires row < ROWS && col < WIDTH && !Blank(RowOf(file0, row), RowOf(file1, row), col)
    ensures Ordered([UserAt(RowOf(file0, row), RowOf(file1, row), row, col)], file0, file1, CellOf(row, col),
        CellOf(row, col + 1))
  {
    assert IsCell(UserAt(RowOf(file0, row), RowOf(file1, row), row, col), file0, file1);
  }

  lemma {:induction false} RowOrdered(file0: string, file1: string, row: nat, col: nat)
    requires row < ROWS && col <= WIDTH
    ensures Ordered(RowUsers(RowOf(file0, row), RowOf(file1, row), row, col), file0, file1, CellOf(row, 0),
        CellOf(row, col))
  {
    hide Ordered, Blank, RowOf, UserAt;
    var line0, line1 := RowOf(file0, row), RowOf(file1, row);
    if col == 0 {
      NoneOrdered(file0, file1, CellOf(row, 0), CellOf(row, col));
    } else {
      RowOrdered(file0, file1, row, col - 1);
      if Blank(line0, line1, col - 1) {
        assert RowUsers(line0, line1, row, col - 1) + [] == RowUsers(line0, line1, row, col - 1);
        OrderedWider(RowUsers(line0, line1, row, col - 1), file0, file1, CellOf(row, 0), CellOf(row, col - 1),
                     CellOf(row, 0), CellOf(row, col));
      } else {
        OneCell(file0, file1, row, col - 1);
        OrderedConcat(RowUsers(line0, line1, row, col - 1), [UserAt(line0, line1, row, col - 1)], file0, file1,
                      CellOf(row, 0), CellOf(row, col - 1), CellOf(row, col));
      }
    }
  }

  lemma NoneOrdered(file0: string, file1: string, lo: nat, hi: nat)
    ensures Ordered([], file0, file1, lo, hi)
  {
  }

  lemma {:induction false} FramesOrdered(file0: string, file1: string, rows: nat)
    requires FitsScreen(file0) && FitsScreen(file1) && rows <= ROWS
    ensures Ordered(FrameUsers(file0, file1, rows), file0, file1, OFFSET, OFFSET + rows * COLUMNS)
    ensures rows != 0 ==> Ordered(FrameUsers(file0, file1, rows), file0, file1, OFFSET, rows * COLUMNS)
  {
    hide Ordered, RowUsers, RowOf, FitsScreen;
    if rows == 0 {
      NoneOrdered(file0, file1, OFFSET, OFFSET);
    } else {
      var row := rows - 1;
      var cols := Longer(|RowOf(file0, row)|, |RowOf(file1, row)|);
      FramesOrdered(file0, file1, row);
      RowFits(file0, row);
      RowFits(file1, row);
      RowOrdered(file0, file1, row, cols);
      OrderedConcat(FrameUsers(file0, file1, row), WholeRow(file0, file1, row), file0, file1, OFFSET, CellOf(row, 0),
          CellOf(row, cols));
      OrderedWider(FrameUsers(file0, file1, rows), file0, file1, OFFSET, CellOf(row, cols), OFFSET, rows * COLUMNS);
      OrderedWider(FrameUsers(file0, file1, rows), file0, file1, OFFSET, CellOf(row, cols), OFFSET,
          OFFSET + rows * COLUMNS);
    }
  }

  // ---------- Adding them ----------

  ghost predicate Fresh(users: seq<Blinker>) {
    && (forall k :: 0 <= k < |users| ==> 0 < users[k].location < SLOTS)
    && (forall j, k :: 0 <= j < k < |users| ==> users[j].location < users[k].location)
  }

  /** Users at rising places are all accepted: the pool cannot run out before the places do. */
  lemma {:induction false} RisingPlaces(users: seq<Blinker>, k: nat)
    requires Fresh(users) && k < |users|
    ensures k < users[k].location
  {
    if k != 0 {
      RisingPlaces(users, k - 1);
      assert users[k - 1].location < users[k].location;
    }
  }

  /** Added in turn to an empty list, the users end up in it newest first, and shown. */
  lemma {:induction false} AllAdded(screen: seq<char>, users: seq<Blinker>)
    requires |screen| == 2 * SLOTS && Fresh(users)
    ensures var d := AddAll(Device([], screen), users);
            && Shown(d) && |d.nodes| == |users|
            && forall k :: 0 <= k < |users| ==> d.nodes[|users| - 1 - k] == Started(users[k])
  {
    if users != [] {
      var n := |users| - 1;
      var rest := users[..n];
      AllAdded(screen, rest);
      RisingPlaces(users, n);
      var d := AddAll(Device([], screen), rest);
      forall i | 0 <= i < n ensures d.nodes[i].location != users[n].location {
        assert d.nodes[n - 1 - (n - 1 - i)] == Started(rest[n - 1 - i]);
      }
      assert Accepts(d, users[n]);
      hide Shown;
      AddStaysShown(d, users[n]);
    }
  }

  lemma {:induction false} AddingElsewhere(d: Device, users: seq<Blinker>, a: nat)
    requires a < |d.screen| && forall k :: 0 <= k < |users| ==> 2 * users[k].location != a
    ensures |AddAll(d, users).screen| == |d.screen| && AddAll(d, users).screen[a] == d.screen[a]
  {
    if users != [] {
      AddingElsewhere(d, users[..|users| - 1], a);
    }
  }

  // ---------- Every cell that is not blank has its user ----------

  lemma {:induction false} RowHas(line0: string, line1: string, row: nat, cols: nat, col: nat)
    requires col < cols && !Blank(line0, line1, col)
    ensures UserAt(line0, line1, row, col) in RowUsers(line0, line1, row, cols)
  {
    hide Blank, UserAt;
    if col < cols - 1 {
      RowHas(line0, line1, row, cols - 1, col);
    }
  }

  lemma {:induction false} FramesHave(file0: string, file1: string, rows: nat, row: nat, col: nat)
    requires row < rows && !Blank(RowOf(file0, row), RowOf(file1, row), col)
    ensures UserAt(RowOf(file0, row), RowOf(file1, row), row, col) in FrameUsers(file0, file1, rows)
  {
    if row < rows - 1 {
      FramesHave(file0, file1, rows - 1, row, col);
    } else {
      var line0, line1 := RowOf(file0, row), RowOf(file1, row);
      RowHas(line0, line1, row, Longer(|line0|, |line1|), col);
    }
  }

  // ---------- The theorem ----------

  /** Two pictures taking turns, fifteen ticks each, in the right half of the screen, over whatever
      the screen showed before. The screen memory has a character and an attribute for each cell. */
  function Expected(screen: seq<char>, file0: string, file1: string, t: nat, a: nat): char
    requires a < |screen|
  {
    var row, x := a / 2 / COLUMNS, a / 2 % COLUMNS;
    if a % 2 == 0 && x >= OFFSET && (Pixel(file0, row, x - OFFSET) != ' ' || Pixel(file1, row, x - OFFSET) != ' ') then
      if t / 15 % 2 == 0 then Pixel(file0, row, x - OFFSET) else Pixel(file1, row, x - OFFSET)
    else screen[a]
  }

  function Animated(screen: seq<char>, file0: string, file1: string, t: nat): Device {
    TickDeviceTimes(AddAll(Device([], screen), FrameUsers(file0, file1, Height(file0, file1))), t)
  }

  lemma UsersFit(file0: string, file1: string)
    requires FitsScreen(file0) && FitsScreen(file1)
    ensures var users := FrameUsers(file0, file1, Height(file0, file1));
            Fresh(users) && forall k :: 0 <= k < |users| ==> IsCell(users[k], file0, file1)
  {
    hide FrameUsers, IsCell;
    FramesOrdered(file0, file1, Height(file0, file1));
  }

  /** A cell with a user. */
  lemma AnimatedCell(screen: seq<char>, file0: string, file1: string, t: nat, u: Blinker)
    requires |screen| == 2 * SLOTS && FitsScreen(file0) && FitsScreen(file1)
    requires u in FrameUsers(file0, file1, Height(file0, file1)) && u.onLength == u.offLength == LENGTH
    ensures |Animated(screen, file0, file1, t).screen| == |screen| && u.location < SLOTS
    ensures Animated(screen, file0, file1, t).screen[2 * u.location] == if t / 15 % 2 == 0 then u.onChar else u.offChar
  {
    hide FrameUsers, FitsScreen;
    var users := FrameUsers(file0, file1, Height(file0, file1));
    UsersFit(file0, file1);
    hide IsCell;
    AllAdded(screen, users);
    var d := AddAll(Device([], screen), users);
    hide AddAll, Fresh, Started, TickDeviceTimes, TickTimes, Shown;
    var k :| 0 <= k < |users| && users[k] == u;
    StaysShown(d, t);
    NodesTickAlone(d, t);
    var i := |users| - 1 - k;
    assert TickDeviceTimes(d, t).nodes[i] == TickTimes(Started(u), t);
    ShownAt(TickDeviceTimes(d, t), i);
    CharAfter(u, t);
  }

  lemma ShownAt(d: Device, i: nat)
    requires Shown(d) && i < |d.nodes|
    ensures |d.screen| == 2 * SLOTS && d.nodes[i].location < SLOTS
    ensures d.screen[2 * d.nodes[i].location] == CharOf(d.nodes[i])
  {
  }

  lemma CharAfter(u: Blinker, t: nat)
    requires u.onLength == u.offLength == LENGTH
    ensures TickTimes(Started(u), t).location == u.location
    ensures CharOf(TickTimes(Started(u), t)) == if t / 15 % 2 == 0 then u.onChar else u.offChar
  {
    hide TickTimes, Started;
    ClosedForm(u, t);
    HalfPeriods(t);
  }

  lemma HalfPeriods(t: nat)
    ensures t % 30 < 15 <==> t / 15 % 2 == 0
  {
  }

  /** A place without one. */
  lemma UntouchedCell(screen: seq<char>, file0: string, file1: string, t: nat, a: nat)
    requires |screen| == 2 * SLOTS && FitsScreen(file0) && FitsScreen(file1) && a < |screen|
    requires forall u :: u in FrameUsers(file0, file1, Height(file0, file1)) ==> 2 * u.location != a
    ensures |Animated(screen, file0, file1, t).screen| == |screen|
    ensures Animated(screen, file0, file1, t).screen[a] == screen[a]
  {
    hide FrameUsers, FitsScreen;
    var users := FrameUsers(file0, file1, Height(file0, file1));
    UsersFit(file0, file1);
    AllAdded(screen, users);
    AddingElsewhere(Device([], screen), users, a);
    var d := AddAll(Device([], screen), users);
    forall i | 0 <= i < |d.nodes| ensures 2 * d.nodes[i].location != a {
      assert d.nodes[|users| - 1 - (|users| - 1 - i)] == Started(users[|users| - 1 - i]);
    }
    ElsewhereUntouched(d, t, a);
  }

  /** A place with pixels that are not both blank is where some user is; no other place is. */
  lemma UserPlaces(file0: string, file1: string, row: nat, col: nat)
    requires FitsScreen(file0) && FitsScreen(file1)
    requires Pixel(file0, row, col) != ' ' || Pixel(file1, row, col) != ' '
    ensures row < ROWS && col < WIDTH
    ensures UserAt(RowOf(file0, row), RowOf(file1, row), row, col) in FrameUsers(file0, file1, Height(file0, file1))
  {
    RowFits(file0, row);
    RowFits(file1, row);
    FramesHave(file0, file1, Height(file0, file1), row, col);
  }

  lemma CellsApart(row: nat, col: nat, a: nat)
    requires col < WIDTH && row < ROWS && a == 2 * CellOf(row, col)
    ensures a / 2 / COLUMNS == row && a / 2 % COLUMNS == col + OFFSET && a % 2 == 0 && a < 2 * SLOTS
    ensures LocationOf(row, col) == CellOf(row, col)
  {
  }

  /** For every two pictures that fit and every number of ticks, the screen is the expected one. */
  lemma AnimationShows(screen: seq<char>, file0: string, file1: string, t: nat, a: nat)
    requires |screen| == 2 * SLOTS && FitsScreen(file0) && FitsScreen(file1) && a < |screen|
    ensures var shown := Animated(screen, file0, file1, t).screen;
            |shown| == |screen| && shown[a] == Expected(screen, file0, file1, t, a)
  {
    hide FrameUsers, FitsScreen, Animated, RowOf;
    var row, x := a / 2 / COLUMNS, a / 2 % COLUMNS;
    if a % 2 == 0 && x >= OFFSET && (Pixel(file0, row, x - OFFSET) != ' ' || Pixel(file1, row, x - OFFSET) != ' ') {
      var u := UserAt(RowOf(file0, row), RowOf(file1, row), row, x - OFFSET);
      UserPlaces(file0, file1, row, x - OFFSET);
      CellsApart(row, x - OFFSET, a);
      AnimatedCell(screen, file0, file1, t, u);
    } else {
      UsersFit(file0, file1);
      forall u | u in FrameUsers(file0, file1, Height(file0, file1)) ensures 2 * u.location != a {
        NotHere(file0, file1, u, a);
      }
      UntouchedCell(screen, file0, file1, t, a);
    }
  }

  lemma NotHere(file0: string, file1: string, u: Blinker, a: nat)
    requires IsCell(u, file0, file1)
    requires var row, x := a / 2 / COLUMNS, a / 2 % COLUMNS;
             a % 2 == 0 && x >= OFFSET ==> Pixel(file0, row, x - OFFSET) == ' ' && Pixel(file1, row, x - OFFSET) == ' '
    ensures 2 * u.location != a
  {
    hide RowOf;
    var row: nat, col: nat :| row < ROWS && col < WIDTH && u == UserAt(RowOf(file0, row), RowOf(file1, row), row, col)
                              && !Blank(RowOf(file0, row), RowOf(file1, row), col);
    CellsApart(row, col, 2 * CellOf(row, col));
  }

  lemma PlacedWhenFits(file0: string, file1: string, row: nat)
    requires FitsScreen(file0) && FitsScreen(file1) && row < Height(file0, file1)
    ensures Placed(RowOf(file0, row), RowOf(file1, row), row)
  {
    RowFits(file0, row);
    RowFits(file1, row);
    forall col | 0 <= col < Longer(|RowOf(file0, row)|, |RowOf(file1, row)|) ensures LocationOf(row, col) != 0 {
      CellsApart(row, col, 2 * CellOf(row, col));
    }
  }

  /** The program reads the clock device again and again, and lets the driver tick each time. */
  method Wait(driver: Driver, ticks: nat)
    requires driver.Valid()
    modifies driver.pool, driver.vmem
    ensures driver.Valid() && driver.View() == TickDeviceTimes(old(driver.View()), ticks)
  {
    hide Linked, NodesOf, TickDevice;
    for i := 0 to ticks
      invariant driver.Valid() && driver.View() == TickDeviceTimes(old(driver.View()), i)
    {
      driver.Tasklet();
    }
  }

  /** The first part of the program: it adds the pictures and then waits for `t` clock interrupts. */
  method Play(file0: Reader, file1: Reader, vmem: array<char>, garbage: Blinker, t: nat) returns (driver: Driver)
    requires file0 != file1 && file0.pos == 0 && file1.pos == 0 && vmem.Length == 2 * SLOTS
    requires FitsScreen(file0.content) && FitsScreen(file1.content)
    modifies file0, file1, vmem
    ensures fresh(driver) && fresh(driver.pool) && driver.Valid() && driver.vmem == vmem
    ensures driver.View() == Animated(old(vmem[..]), file0.content, file1.content, t)
    ensures forall a :: 0 <= a < vmem.Length ==> vmem[a] == Expected(old(vmem[..]), file0.content, file1.content, t, a)
  {
    hide FrameUsers, FitsScreen, Linked, NodesOf, AddAll, TickDevice, Expected;
    ghost var screen, f0, f1 := vmem[..], file0.content, file1.content;
    driver := new Driver(vmem);
    forall row | 0 <= row < Height(f0, f1) ensures Placed(RowOf(f0, row), RowOf(f1, row), row) {
      PlacedWhenFits(f0, f1, row);
    }
    AddFrames(driver, file0, file1, garbage);
    Wait(driver, t);
    forall a | 0 <= a < vmem.Length ensures vmem[a] == Expected(screen, f0, f1, t, a) {
      AnimationShows(screen, f0, f1, t, a);
    }
  }
}
