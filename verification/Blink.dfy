/** The fish program's blink driver: blinking characters are kept in a static pool of slots, linked
    in the order they were added, the newest first, and a tasklet counts each of them down. */
module Blink {

  const SLOTS: nat := 80 * 25
  const NIL: int := -1

  type word = w: int | 0 <= w < 0x10000

  datatype Blinker = Blinker(location: word, onChar: char, offChar: char, onLength: word, offLength: word,
                             countdown: word, status: word)

  /** One entry of the pool: the structure without its link, and the link. */
  datatype Slot = Slot(b: Blinker, next: int)

  const FREED: Slot := Slot(Blinker(0, '\0', '\0', 0, 0, 0, 0), NIL)

  // ---------- Sixteen-bit arithmetic ----------

  function Signed(w: word): int {
    if w < 0x8000 then w else w - 0x10000
  }

  function Dec(w: word): word {
    if w == 0 then 0xFFFF else w - 1
  }

  predicate IsOn(b: Blinker) {
    b.status % 2 == 1
  }

  function Toggled(b: Blinker): word {
    if IsOn(b) then b.status - 1 else b.status + 1
  }

  // ---------- The driver on values ----------

  /** The list, newest first, and the screen memory: a character and an attribute for each cell. */
  datatype Device = Device(nodes: seq<Blinker>, screen: seq<char>)

  predicate Expires(b: Blinker) {
    Signed(Dec(b.countdown)) <= 0
  }

  /** One node after one tick. */
  function Tick(b: Blinker): Blinker {
    if !Expires(b) then b.(countdown := Dec(b.countdown))
    else b.(countdown := if IsOn(b) then b.offLength else b.onLength, status := Toggled(b))
  }

  function Poke(screen: seq<char>, location: int, c: char): (s: seq<char>)
    ensures |s| == |screen|
  {
    if 0 <= 2 * location < |screen| then screen[2 * location := c] else screen
  }

  /** The screen after one tick: the expired nodes are drawn anew, in list order. */
  function TickScreen(nodes: seq<Blinker>, screen: seq<char>): (s: seq<char>)
    ensures |s| == |screen|
  {
    if nodes == [] then screen
    else
      var b := nodes[0];
      TickScreen(nodes[1..], if Expires(b) then Poke(screen, b.location, if IsOn(b) then b.offChar else b.onChar)
                             else screen)
  }

  function TickAll(nodes: seq<Blinker>): (r: seq<Blinker>)
    ensures |r| == |nodes|
  {
    seq(|nodes|, i requires 0 <= i < |nodes| => Tick(nodes[i]))
  }

  function TickDevice(d: Device): Device {
    Device(TickAll(d.nodes), TickScreen(d.nodes, d.screen))
  }

  /** A node as it enters the list: on, with its full on-time ahead. */
  function Started(user: Blinker): Blinker {
    user.(status := 1, countdown := user.onLength)
  }

  predicate Accepts(d: Device, user: Blinker) {
    user.location < SLOTS && |d.nodes| < SLOTS
  }

  function AddDevice(d: Device, user: Blinker): Device {
    if Accepts(d, user) then Device([Started(user)] + d.nodes, Poke(d.screen, user.location, user.onChar)) else d
  }

  /** The position of the newest node at a location, or the length of the list. */
  function Find(nodes: seq<Blinker>, location: word): (k: nat)
    ensures k <= |nodes|
    ensures k < |nodes| ==> nodes[k].location == location
    ensures forall i :: 0 <= i < k ==> nodes[i].location != location
  {
    if nodes == [] || nodes[0].location == location then 0 else 1 + Find(nodes[1..], location)
  }

  function RemoveDevice(d: Device, location: word): Device {
    var k := Find(d.nodes, location);
    if k == |d.nodes| then d else d.(nodes := Without(d.nodes, k))
  }

  /** The node `to` with the timing of `from`. */
  function Timed(from: Blinker, to: Blinker): Blinker {
    to.(onLength := from.onLength, offLength := from.offLength, countdown := from.countdown, status := from.status)
  }

  /** Synchronisation draws the off character whatever the status, for the code's conditional move
      is never taken. */
  function SyncDevice(d: Device, first: word, second: word): Device {
    var i, j := Find(d.nodes, first), Find(d.nodes, second);
    if i == |d.nodes| || j == |d.nodes| then d
    else Device(d.nodes[j := Timed(d.nodes[i], d.nodes[j])], Poke(d.screen, second, d.nodes[j].offChar))
  }

  // ---------- The pool ----------

  function Nth(order: seq<int>, k: nat): int {
    if k < |order| then order[k] else NIL
  }

  ghost predicate Distinct(order: seq<int>) {
    forall j, k :: 0 <= j < k < |order| ==> order[j] != order[k]
  }

  ghost predicate SlotNumbers(order: seq<int>) {
    forall k :: 0 <= k < |order| ==> 0 <= order[k] < SLOTS
  }

  /** The links lead from the head through exactly the slots of `order`. */
  ghost predicate Links(pool: seq<Slot>, head: int, order: seq<int>)
    requires |pool| == SLOTS && SlotNumbers(order)
  {
    head == Nth(order, 0) && forall k :: 0 <= k < |order| ==> pool[order[k]].next == Nth(order, k + 1)
  }

  /** The slots of `order` are exactly the ones whose location says they are in use. */
  ghost predicate InUse(pool: seq<Slot>, order: seq<int>)
    requires |pool| == SLOTS
  {
    forall i :: 0 <= i < SLOTS ==> pool[i].b.location < SLOTS && (pool[i].b.location != 0 <==> i in order)
  }

  ghost predicate Linked(pool: seq<Slot>, head: int, order: seq<int>) {
    |pool| == SLOTS && SlotNumbers(order) && Distinct(order) && Links(pool, head, order) && InUse(pool, order)
  }

  ghost function NodesOf(pool: seq<Slot>, order: seq<int>): (r: seq<Blinker>)
    requires forall k :: 0 <= k < |order| ==> 0 <= order[k] < |pool|
    ensures |r| == |order|
  {
    seq(|order|, k requires 0 <= k < |order| => pool[order[k]].b)
  }

  /** Distinct slot numbers, as a set. */
  lemma {:induction false} SlotSet(order: seq<int>)
    requires Distinct(order)
    ensures |set i | i in order| == |order|
  {
    if order != [] {
      var last, rest := order[|order| - 1], order[..|order| - 1];
      SlotSet(rest);
      assert (set i | i in order) == (set i | i in rest) + {last};
    }
  }

  /** The numbers below `n`. */
  ghost function Below(n: nat): (r: set<int>)
    ensures forall i :: i in r <==> 0 <= i < n
    ensures |r| == n
  {
    if n == 0 then {} else Below(n - 1) + {n - 1}
  }

  ghost function FreeSlots(pool: seq<Slot>): set<int> {
    set i | i in Below(|pool|) && pool[i].b.location == 0
  }

  /** Live and free slots together are always the whole pool. */
  lemma LivePlusFree(pool: seq<Slot>, head: int, order: seq<int>)
    requires Linked(pool, head, order)
    ensures |order| + |FreeSlots(pool)| == SLOTS
  {
    hide Below, Links;
    var live := set i | i in order;
    assert live !! FreeSlots(pool) && live + FreeSlots(pool) == Below(|pool|);
    SlotSet(order);
  }

  lemma FullWhenNoneFree(pool: seq<Slot>, head: int, order: seq<int>)
    requires Linked(pool, head, order)
    ensures |order| <= SLOTS
    ensures |order| == SLOTS <==> forall i :: 0 <= i < SLOTS ==> pool[i].b.location != 0
  {
    hide Below;
    LivePlusFree(pool, head, order);
    if i :| 0 <= i < SLOTS && pool[i].b.location == 0 {
      assert i in FreeSlots(pool);
    } else {
      assert FreeSlots(pool) == {};
    }
  }

  /** No well formed list has a head that counts as free, which is what adding at location 0 leaves. */
  lemma FreeHead(pool: seq<Slot>, head: int, order: seq<int>)
    requires 0 <= head < |pool| && pool[head].b.location == 0
    ensures !Linked(pool, head, order)
  {
    assert Linked(pool, head, order) ==> head in order;
  }

  // ---------- The driver ----------

  class Driver {
    const pool: array<Slot>
    const vmem: array<char>
    var head: int
    ghost var order: seq<int>

    ghost predicate Valid()
      reads this, pool, vmem
    {
      pool.Length == SLOTS && vmem.Length == 2 * SLOTS && Linked(pool[..], head, order)
    }

    ghost function View(): Device
      reads this, pool, vmem
      requires Valid()
    {
      Device(NodesOf(pool[..], order), vmem[..])
    }

    /** The program clears its pool and maps the screen. */
    constructor (vmem: array<char>)
      requires vmem.Length == 2 * SLOTS
      ensures Valid() && fresh(pool) && this.vmem == vmem
      ensures View() == Device([], vmem[..])
    {
      pool := new Slot[SLOTS](_ => FREED);
      this.vmem := vmem;
      head := NIL;
      order := [];
    }

    method PokeAt(location: word, c: char)
      requires 2 * location < vmem.Length
      modifies vmem
      ensures vmem[..] == Poke(old(vmem[..]), location, c)
    {
      vmem[2 * location] := c;
    }

    /** The first slot whose location says it is free, or NIL. */
    method Malloc() returns (slot: int)
      requires Valid()
      ensures slot == NIL <==> |order| == SLOTS
      ensures |order| <= SLOTS
      ensures slot != NIL ==> 0 <= slot < SLOTS && pool[slot].b.location == 0
      ensures forall i :: 0 <= i < SLOTS && (slot == NIL || i < slot) ==> pool[i].b.location != 0
    {
      hide Linked;
      FullWhenNoneFree(pool[..], head, order);
      for i := 0 to SLOTS
        invariant forall k :: 0 <= k < i ==> pool[k].b.location != 0
      {
        if pool[i].b.location == 0 {
          return i;
        }
      }
      return NIL;
    }

    /** The newest node at the location, or NIL. */
    method FindHelper(location: word) returns (slot: int, ghost k: nat)
      requires Valid()
      ensures k == Find(View().nodes, location) && slot == Nth(order, Find(View().nodes, location))
    {
      hide Find, InUse, Distinct;
      slot, k := head, 0;
      while slot != NIL && location != pool[slot].b.location
        invariant k <= |order| && slot == Nth(order, k)
        invariant forall i :: 0 <= i < k ==> pool[order[i]].b.location != location
        decreases |order| - k
      {
        slot, k := pool[slot].next, k + 1;
      }
      FindUnique(View().nodes, location, k);
    }

    /** RTC_ADD. A structure at location 0 is linked in, but its slot still reads as free, so the list
        stays well formed exactly when the location is another one. */
    method IoctlAdd(user: Blinker, garbage: int) returns (ret: int)
      requires Valid()
      modifies this, pool, vmem
      ensures ret == (if old(Accepts(View(), user)) then 0 else -1)
      ensures ret == -1 ==> Valid() && View() == old(View())
      ensures ret == 0 && user.location != 0 ==> Valid() && View() == AddDevice(old(View()), user)
      ensures ret == 0 && user.location == 0 ==> forall o :: !Linked(pool[..], head, o)
    {
      if user.location >= SLOTS {
        return -1;
      }
      var temp := Started(user);
      var slot := Malloc();
      if slot == NIL {
        return -1;
      }
      pool[slot] := Slot(temp, garbage);
      pool[slot] := pool[slot].(next := head);
      ghost var was := old(pool[..]);
      assert pool[..] == was[slot := Slot(temp, head)];
      head := slot;
      PokeAt(pool[slot].b.location, pool[slot].b.onChar);
      if user.location == 0 {
        forall o ensures !Linked(pool[..], head, o) {
          FreeHead(pool[..], head, o);
        }
      } else {
        LinkFront(was, old(head), order, slot, temp);
        order := [slot] + order;
      }
      return 0;
    }

    /** Follows the links until one leads to the slot: NIL stands for the head, otherwise the link is
        that of the slot `prev`. */
    method FindPrevious(slot: int, ghost k: nat) returns (prev: int)
      requires Valid() && k < |order| && slot == order[k]
      ensures prev == if k == 0 then NIL else order[k - 1]
    {
      hide InUse;
      prev := NIL;
      var cur := head;
      ghost var j := 0;
      while cur != slot
        invariant j <= k && cur == order[j] && prev == if j == 0 then NIL else order[j - 1]
        decreases k - j
      {
        prev, cur, j := cur, pool[cur].next, j + 1;
      }
      assert j == k;
    }

    /** RTC_REMOVE. */
    method IoctlRemove(arg: nat) returns (ret: int)
      requires Valid()
      modifies this, pool
      ensures Valid()
      ensures var location := arg % 0x10000;
              && View() == RemoveDevice(old(View()), location)
              && ret == if Find(old(View()).nodes, location) < |old(order)| then 0 else -1
    {
      var slot, k := FindHelper(arg % 0x10000);
      if slot == NIL {
        return -1;
      }
      var prev := FindPrevious(slot, k);
      hide Links, InUse, Distinct, Find;
      Unlink(pool[..], head, order, k);
      if prev == NIL {
        head := pool[slot].next;
      } else {
        pool[prev] := pool[prev].(next := pool[slot].next);
      }
      pool[slot] := FREED;
      assert pool[..] == Unlinked(old(pool[..]), old(order), k);
      order := Without(order, k);
      return 0;
    }

    /** Tasklet: every node of the list counts down, and the expired ones change. */
    method Tasklet()
      requires Valid()
      modifies pool, vmem
      ensures Valid() && View() == TickDevice(old(View()))
    {
      ghost var was, nodes, screen := pool[..], View().nodes, vmem[..];
      var ebx := head;
      ghost var k := 0;
      assert nodes[0..] == nodes;
      while ebx != NIL
        invariant k <= |order| && ebx == Nth(order, k)
        invariant Valid()
        invariant forall i :: 0 <= i < |order| ==> View().nodes[i] == if i < k then Tick(nodes[i]) else nodes[i]
        invariant TickScreen(nodes[k..], vmem[..]) == TickScreen(nodes, screen)
        decreases |order| - k
      {
        TickOne(ebx, k);
        ebx, k := pool[ebx].next, k + 1;
      }
    }

    /** What it does to one node. */
    method TickOne(slot: int, ghost k: nat)
      requires Valid() && k < |order| && slot == order[k]
      modifies pool, vmem
      ensures Valid()
      ensures View().nodes == old(View()).nodes[k := Tick(old(View()).nodes[k])]
      ensures var b := old(View()).nodes[k];
              vmem[..] == if Expires(b) then Poke(old(vmem[..]), b.location, if IsOn(b) then b.offChar else b.onChar)
                          else old(vmem[..])
    {
      hide Links, InUse, Distinct;
      ghost var was, node := pool[..], View().nodes[k];
      RetimeKeepsLinks(was, head, order, k, Tick(node));
      var b := pool[slot].b;
      b := b.(countdown := Dec(b.countdown));
      if Signed(b.countdown) <= 0 {
        var length := b.onLength;
        if IsOn(b) {
          PokeAt(b.location, b.offChar);
          length := b.offLength;
        } else {
          PokeAt(b.location, b.onChar);
        }
        b := b.(countdown := length, status := Toggled(b));
      }
      pool[slot] := pool[slot].(b := b);
      assert pool[..] == was[order[k] := was[order[k]].(b := Tick(node))];
    }

    /** RTC_FIND: a copy of the newest structure at the location that the argument starts with. */
    method IoctlFind(location: word) returns (ret: int, copy: Blinker)
      requires Valid()
      ensures var nodes := View().nodes;
              var k := Find(nodes, location);
              if k < |nodes| then ret == 0 && copy == nodes[k] else ret == -1
    {
      var slot, k := FindHelper(location);
      if slot == NIL {
        return -1, FREED.b;
      }
      return 0, pool[slot].b;
    }

    /** RTC_SYNC: the location in the low half of the argument takes its timing from the one in the
        high half. */
    method IoctlSync(arg: nat) returns (ret: int)
      requires Valid() && arg < 0x1_0000_0000
      modifies pool, vmem
      ensures Valid()
      ensures var first, second := arg / 0x10000, arg % 0x10000;
              var nodes := old(View()).nodes;
              && View() == SyncDevice(old(View()), first, second)
              && ret == if Find(nodes, first) < |nodes| && Find(nodes, second) < |nodes| then 0 else -1
    {
      var esi, i := FindHelper(arg / 0x10000);
      if esi == NIL {
        return -1;
      }
      var edi, j := FindHelper(arg % 0x10000);
      if edi == NIL {
        return -1;
      }
      hide Links, InUse, Distinct, Find;
      ghost var was, nodes := pool[..], View().nodes;
      var timed := Timed(pool[esi].b, pool[edi].b);
      assert nodes[i] == pool[esi].b && nodes[j] == pool[edi].b;
      RetimeKeepsLinks(was, head, order, j, timed);
      pool[edi] := pool[edi].(b := timed);
      assert pool[..] == was[order[j] := was[order[j]].(b := timed)];
      PokeAt(pool[edi].b.location, pool[edi].b.offChar);
      return 0;
    }
  }

  /** Changing what a slot of the list holds, but not its location. */
  lemma RetimeKeepsLinks(pool: seq<Slot>, head: int, order: seq<int>, k: nat, b: Blinker)
    requires Linked(pool, head, order) && k < |order| && b.location == pool[order[k]].b.location
    ensures var now := pool[order[k] := pool[order[k]].(b := b)];
            Linked(now, head, order) && NodesOf(now, order) == NodesOf(pool, order)[k := b]
    ensures 0 < b.location < SLOTS
  {
  }

  /** Putting a slot that was free in front. */
  lemma LinkFront(pool: seq<Slot>, head: int, order: seq<int>, slot: int, b: Blinker)
    requires Linked(pool, head, order)
    requires 0 <= slot < SLOTS && pool[slot].b.location == 0 && 0 < b.location < SLOTS
    ensures var now := pool[slot := Slot(b, head)];
            Linked(now, slot, [slot] + order) && NodesOf(now, [slot] + order) == [b] + NodesOf(pool, order)
  {
    assert slot !in order;
    hide Links, InUse, SlotNumbers, Distinct;
    LinkFrontOrder(order, slot);
    LinkFrontLinks(pool, head, order, slot, b);
    LinkFrontNodes(pool, head, order, slot, b);
    LinkFrontInUse(pool, order, slot, b);
  }

  lemma LinkFrontOrder(order: seq<int>, slot: int)
    requires SlotNumbers(order) && Distinct(order)
    requires 0 <= slot < SLOTS && slot !in order
    ensures SlotNumbers([slot] + order) && Distinct([slot] + order)
  {
  }

  lemma LinkFrontLinks(pool: seq<Slot>, head: int, order: seq<int>, slot: int, b: Blinker)
    requires |pool| == SLOTS && SlotNumbers(order) && SlotNumbers([slot] + order) && Links(pool, head, order)
    requires 0 <= slot < SLOTS && slot !in order
    ensures Links(pool[slot := Slot(b, head)], slot, [slot] + order)
  {
    var now, list := pool[slot := Slot(b, head)], [slot] + order;
    forall k | 0 <= k < |list|
      ensures now[list[k]].next == Nth(list, k + 1)
    {
      if k > 0 {
        assert list[k] == order[k - 1] && order[k - 1] in order;
      }
    }
  }

  lemma LinkFrontNodes(pool: seq<Slot>, head: int, order: seq<int>, slot: int, b: Blinker)
    requires |pool| == SLOTS && SlotNumbers(order) && SlotNumbers([slot] + order)
    requires 0 <= slot < SLOTS && slot !in order
    ensures NodesOf(pool[slot := Slot(b, head)], [slot] + order) == [b] + NodesOf(pool, order)
  {
    var now, list := pool[slot := Slot(b, head)], [slot] + order;
    assert forall k :: 0 < k < |list| ==> list[k] == order[k - 1] && order[k - 1] in order;
  }

  lemma LinkFrontInUse(pool: seq<Slot>, order: seq<int>, slot: int, b: Blinker)
    requires |pool| == SLOTS && InUse(pool, order)
    requires 0 <= slot < SLOTS && 0 < b.location < SLOTS
    ensures forall next :: InUse(pool[slot := Slot(b, next)], [slot] + order)
  {
    assert forall i :: i in [slot] + order <==> i == slot || i in order;
  }

  /** The pool once the `k`th slot of the list has been linked out and cleared. */
  function Unlinked(pool: seq<Slot>, order: seq<int>, k: nat): (r: seq<Slot>)
    requires k < |order| && forall i :: 0 <= i < |order| ==> 0 <= order[i] < |pool|
    ensures |r| == |pool|
  {
    var next := pool[order[k]].next;
    var linked := if k == 0 then pool else pool[order[k - 1] := pool[order[k - 1]].(next := next)];
    linked[order[k] := FREED]
  }

  function Without<T>(s: seq<T>, k: nat): seq<T>
    requires k < |s|
  {
    s[..k] + s[k + 1..]
  }

  lemma Unlink(pool: seq<Slot>, head: int, order: seq<int>, k: nat)
    requires Linked(pool, head, order) && k < |order|
    ensures var now, rest := Unlinked(pool, order, k), Without(order, k);
            && Linked(now, if k == 0 then pool[order[0]].next else head, rest)
            && NodesOf(now, rest) == Without(NodesOf(pool, order), k)
  {
    hide Links, InUse, Distinct;
    UnlinkOrder(order, k);
    UnlinkLinks(pool, head, order, k);
    UnlinkNodes(pool, order, k);
    UnlinkInUse(pool, order, k);
  }

  lemma UnlinkOrder(order: seq<int>, k: nat)
    requires SlotNumbers(order) && Distinct(order) && k < |order|
    ensures SlotNumbers(Without(order, k)) && Distinct(Without(order, k))
    ensures forall i :: i in Without(order, k) ==> i in order && i != order[k]
  {
  }

  /** Which slots the unlinking leaves as they were. */
  lemma UnlinkedAt(pool: seq<Slot>, order: seq<int>, k: nat, m: nat)
    requires |pool| == SLOTS && SlotNumbers(order) && Distinct(order) && k < |order| && m < |order| && m != k
    ensures Unlinked(pool, order, k)[order[m]].b == pool[order[m]].b
    ensures Unlinked(pool, order, k)[order[m]].next == if m + 1 == k then pool[order[k]].next else pool[order[m]].next
  {
  }

  lemma UnlinkLinks(pool: seq<Slot>, head: int, order: seq<int>, k: nat)
    requires |pool| == SLOTS && SlotNumbers(order) && Distinct(order) && Links(pool, head, order) && k < |order|
    requires SlotNumbers(Without(order, k))
    ensures Links(Unlinked(pool, order, k), if k == 0 then pool[order[0]].next else head, Without(order, k))
  {
    hide Unlinked, Distinct;
    var now, rest := Unlinked(pool, order, k), Without(order, k);
    forall i | 0 <= i < |rest|
      ensures now[rest[i]].next == Nth(rest, i + 1)
    {
      UnlinkedAt(pool, order, k, if i < k then i else i + 1);
    }
  }

  lemma UnlinkNodes(pool: seq<Slot>, order: seq<int>, k: nat)
    requires |pool| == SLOTS && SlotNumbers(order) && Distinct(order) && k < |order|
    requires SlotNumbers(Without(order, k))
    ensures NodesOf(Unlinked(pool, order, k), Without(order, k)) == Without(NodesOf(pool, order), k)
  {
    hide Unlinked, Distinct;
    var now, rest := Unlinked(pool, order, k), Without(order, k);
    forall i | 0 <= i < |rest|
      ensures now[rest[i]].b == Without(NodesOf(pool, order), k)[i]
    {
      UnlinkedAt(pool, order, k, if i < k then i else i + 1);
    }
  }

  lemma UnlinkInUse(pool: seq<Slot>, order: seq<int>, k: nat)
    requires |pool| == SLOTS && SlotNumbers(order) && Distinct(order) && InUse(pool, order) && k < |order|
    ensures InUse(Unlinked(pool, order, k), Without(order, k))
  {
    var rest := Without(order, k);
    assert forall i :: i in rest <==> i in order[..k] || i in order[k + 1..];
    assert forall i :: i in order <==> i in order[..k] || i == order[k] || i in order[k + 1..];
  }

  lemma FindUnique(nodes: seq<Blinker>, location: word, k: nat)
    requires k <= |nodes| && (k < |nodes| ==> nodes[k].location == location)
    requires forall i :: 0 <= i < k ==> nodes[i].location != location
    ensures Find(nodes, location) == k
  {
  }
}
