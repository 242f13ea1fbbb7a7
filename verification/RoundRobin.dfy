/** The timer goes round the terminals that have processes. */
module RoundRobin {
  import opened Arith
  import opened Scheduler
  import opened SchedulerInvariant
  import opened SchedulerRuns

  /** The terminals below `n` that have processes, in rising order. */
  function Busy(stacks: seq<seq<int>>, n: nat): (r: seq<nat>)
    requires n <= |stacks|
    ensures forall i :: 0 <= i < |r| ==> r[i] < n && stacks[r[i]] != []
    ensures forall i, j :: 0 <= i < j < |r| ==> r[i] < r[j]
  {
    if n == 0 then [] else Busy(stacks, n - 1) + if stacks[n - 1] == [] then [] else [n - 1]
  }

  function Turns(s: State): seq<nat> {
    Busy(s.stacks, |s.stacks|)
  }

  lemma {:induction false} BusyHas(stacks: seq<seq<int>>, n: nat, t: nat)
    requires t < n <= |stacks| && stacks[t] != []
    ensures t in Busy(stacks, n)
  {
    if t < n - 1 {
      BusyHas(stacks, n - 1, t);
    }
  }

  /** The place of a busy terminal in the round. */
  ghost function Place(stacks: seq<seq<int>>, t: nat): (i: nat)
    requires t < |stacks| && stacks[t] != []
    ensures i < |Busy(stacks, |stacks|)| && Busy(stacks, |stacks|)[i] == t
  {
    BusyHas(stacks, |stacks|, t);
    var i :| 0 <= i < |Busy(stacks, |stacks|)| && Busy(stacks, |stacks|)[i] == t;
    i
  }

  /** The search ends at the nearest busy terminal. */
  lemma {:induction false} FirstBusyIs(stacks: seq<seq<int>>, c: nat, d: nat, e: nat)
    requires c < |stacks| && 1 <= d <= e <= |stacks| && stacks[Ahead(c, e, |stacks|)] != []
    requires forall x :: d <= x < e ==> stacks[Ahead(c, x, |stacks|)] == []
    ensures FirstBusy(stacks, c, d) == Ahead(c, e, |stacks|)
    decreases e - d
  {
    Wrapped(c, d, |stacks|);
    hide Ahead;
    if d < e {
      FirstBusyIs(stacks, c, d + 1, e);
    }
  }

  lemma RisingGap(turns: seq<nat>, i: nat, j: nat)
    requires forall a, b :: 0 <= a < b < |turns| ==> turns[a] < turns[b]
    requires i < |turns| && j < |turns|
    ensures if j <= i then turns[j] <= turns[i] else turns[i + 1] <= turns[j]
  {
  }

  /** Nothing between two neighbours of the round is busy. */
  lemma BetweenNeighbours(stacks: seq<seq<int>>, i: nat, t: nat)
    requires var turns := Busy(stacks, |stacks|);
             && i < |turns| && t < |stacks|
             && (if i + 1 < |turns| then turns[i] < t < turns[i + 1] else t > turns[i])
    ensures stacks[t] == []
  {
    if stacks[t] != [] {
      RisingGap(Busy(stacks, |stacks|), i, Place(stacks, t));
    }
  }

  lemma BeforeFirst(stacks: seq<seq<int>>, t: nat)
    requires Busy(stacks, |stacks|) != [] && t < Busy(stacks, |stacks|)[0]
    ensures t < |stacks| && stacks[t] == []
  {
    if stacks[t] != [] {
      var j := Place(stacks, t);
    }
  }

  /** After the `i`th terminal of the round comes the next, and after the last the first. */
  lemma NextInRound(stacks: seq<seq<int>>, i: nat)
    requires i < |Busy(stacks, |stacks|)|
    ensures var turns := Busy(stacks, |stacks|);
            FirstBusy(stacks, turns[i], 1) == if i + 1 < |turns| then turns[i + 1] else turns[0]
  {
    hide Busy, FirstBusy;
    var n, turns := |stacks|, Busy(stacks, |stacks|);
    var c, next := turns[i], if i + 1 < |turns| then turns[i + 1] else turns[0];
    var e := if i + 1 < |turns| then next - c else n - c + next;
    assert i + 1 == |turns| ==> next <= c;
    forall x | 1 <= x < e ensures stacks[Ahead(c, x, n)] == [] {
      if c + x >= n {
        BeforeFirst(stacks, c + x - n);
      } else {
        BetweenNeighbours(stacks, i, c + x);
      }
    }
    FirstBusyIs(stacks, c, 1, e);
  }

  // ---------- Over runs ----------

  function CountTicks(es: seq<Event>): nat {
    if es == [] then 0 else (if es[0].Ticks? then 1 else 0) + CountTicks(es[1..])
  }

  predicate NoSwitches(es: seq<Event>) {
    forall i :: 0 <= i < |es| ==> !es[i].Switches?
  }

  ghost predicate SameBusy(a: seq<seq<int>>, b: seq<seq<int>>) {
    |a| == |b| && forall t :: 0 <= t < |a| ==> (a[t] == [] <==> b[t] == [])
  }

  lemma {:induction false} SameTurns(a: seq<seq<int>>, b: seq<seq<int>>, n: nat)
    requires SameBusy(a, b) && n <= |a|
    ensures Busy(a, n) == Busy(b, n)
  {
    if n != 0 {
      SameTurns(a, b, n - 1);
    }
  }

  /** Apart from a change of terminals, no step changes which terminals have processes, and only the
      timer moves on to another. */
  lemma BusyKept(s: State, e: Event)
    requires Inv(s) && Allowed(s, e) && !e.Switches? && s.request == NO_REQUEST
    ensures var r := Next(s, e);
            && SameBusy(s.stacks, r.stacks) && r.request == NO_REQUEST
            && r.currentProcess == if e.Ticks? then FirstBusy(s.stacks, s.currentProcess, 1) else s.currentProcess
  {
    StepDefined(s);
    FrontIsBusy(s);
    hide Inv, Creatable, Leave, Execute, Tick, Switch, Write, Halt;
    match e
    case Executes => ExecuteBusy(s);
    case Halts => HaltBusy(s);
    case Ticks(esp, ebp) => TickBusy(s, esp, ebp);
    case Writes(offset, c) => WriteBusy(s, offset, c);
  }

  lemma FrontIsBusy(s: State)
    requires Inv(s)
    ensures InTables(s) && s.stacks[s.currentTerminal] != [] && s.stacks[s.currentProcess] != []
    ensures s.mapped.Backing? ==> 0 <= s.mapped.terminal < |s.stacks|
    ensures |s.stacks[s.currentProcess]| == 1 <==> s.pcbs[s.currentPid].parent == SENTINEL
  {
    hide Tables, KernelStacks, Esp0;
    ParentOfRunning(s);
  }

  lemma ExecuteBusy(s: State)
    requires InTables(s) && Creatable(s) && s.stacks[s.currentTerminal] != []
    ensures var r := Execute(s);
            SameBusy(s.stacks, r.stacks) && r.request == s.request && r.currentProcess == s.currentProcess
  {
    hide Esp0;
  }

  lemma HaltBusy(s: State)
    requires InTables(s) && Creatable(s) && s.stacks[s.currentProcess] != []
    requires 0 <= s.pcbs[s.currentPid].parent < |s.pcbs| && Creatable(Leave(s)) && CanHalt(s) && !Full(Leave(s))
    requires |s.stacks[s.currentProcess]| == 1 <==> s.pcbs[s.currentPid].parent == SENTINEL
    ensures var r := Halt(s);
            SameBusy(s.stacks, r.stacks) && r.request == s.request && r.currentProcess == s.currentProcess
  {
    hide Esp0, FirstFree;
  }

  lemma TickBusy(s: State, esp: int, ebp: int)
    requires InTables(s) && s.request == NO_REQUEST
    ensures var r := Tick(s, esp, ebp);
            r.stacks == s.stacks && r.request == NO_REQUEST
              && r.currentProcess == FirstBusy(s.stacks, s.currentProcess, 1)
  {
    hide Esp0, FirstBusy;
  }

  lemma WriteBusy(s: State, offset: nat, c: char)
    requires InTables(s) && (s.mapped.Backing? ==> 0 <= s.mapped.terminal < |s.backing|)
    ensures var r := Write(s, offset, c);
            r.stacks == s.stacks && r.request == s.request && r.currentProcess == s.currentProcess
  {
  }

  /** Without changes of terminals, each tick of a run moves exactly one place round the same terminals,
      whatever the processes do in between. */
  lemma {:induction false} TurnsOverRuns(s: State, es: seq<Event>, i: nat)
    requires Inv(s) && Legal(s, es) && NoSwitches(es) && s.request == NO_REQUEST
    requires i < |Turns(s)| && s.currentProcess == Turns(s)[i]
    ensures Turns(After(s, es)) == Turns(s)
    ensures After(s, es).currentProcess == Turns(s)[(i + CountTicks(es)) % |Turns(s)|]
    decreases |es|
  {
    hide Inv, Next, Allowed, Busy, FirstBusy;
    var k := |Turns(s)|;
    if es == [] {
      RemainderUnique(i, k, 0, i);
    } else {
      var e, rest := es[0], es[1..];
      var r := Next(s, e);
      BusyKept(s, e);
      SameTurns(s.stacks, r.stacks, |s.stacks|);
      NextInRound(s.stacks, i);
      var j := if !e.Ticks? then i else if i + 1 < k then i + 1 else 0;
      TurnsOverRuns(r, rest, j);
      OneFurther(i, CountTicks(rest), k);
    }
  }

  lemma OneFurther(i: nat, n: nat, k: nat)
    requires i < k
    ensures (i + (1 + n)) % k == ((if i + 1 < k then i + 1 else 0) + n) % k
  {
    if i + 1 == k {
      var q, r := n / k, n % k;
      assert n == q * k + r && (q + 1) * k == q * k + k;
      RemainderUnique(n + k, k, q + 1, r);
    }
  }

  /** How many ticks after the turn of terminal number `i` it is the turn of number `j`. */
  function TicksUntil(i: nat, j: nat, k: nat): (n: nat)
    requires i < k && j < k
    ensures 1 <= n <= k
  {
    if j > i then j - i else j + k - i
  }

  /** Of `k` consecutive ticks exactly one is for number `j`. */
  lemma OncePerRound(i: nat, j: nat, k: nat, m: nat)
    requires i < k && j < k && 1 <= m <= k
    ensures (i + m) % k == j <==> m == TicksUntil(i, j, k)
  {
    Wrapped(i, m, k);
  }

  /** Fairness: in a run without changes of terminals, each of the `k` terminals with processes gets its
      turn at exactly one of any `k` consecutive ticks, in the order of the round. */
  lemma EachOncePerRound(s: State, es: seq<Event>, i: nat, j: nat)
    requires Inv(s) && Legal(s, es) && NoSwitches(es) && s.request == NO_REQUEST
    requires i < |Turns(s)| && s.currentProcess == Turns(s)[i] && j < |Turns(s)|
    requires 1 <= CountTicks(es) <= |Turns(s)|
    ensures After(s, es).currentProcess == Turns(s)[j] <==> CountTicks(es) == TicksUntil(i, j, |Turns(s)|)
  {
    hide Inv, Legal, Busy, TicksUntil;
    TurnsOverRuns(s, es, i);
    OncePerRound(i, j, |Turns(s)|, CountTicks(es));
    RisingOnce(Turns(s), (i + CountTicks(es)) % |Turns(s)|, j);
  }

  /** Every terminal with processes has its place in the round. */
  lemma TurnsComplete(s: State, t: nat)
    requires t < |s.stacks|
    ensures t in Turns(s) <==> s.stacks[t] != []
  {
    if s.stacks[t] != [] {
      BusyHas(s.stacks, |s.stacks|, t);
    }
  }

  lemma RisingOnce(turns: seq<nat>, m: nat, j: nat)
    requires forall a, b :: 0 <= a < b < |turns| ==> turns[a] < turns[b]
    requires m < |turns| && j < |turns|
    ensures turns[m] == turns[j] <==> m == j
  {
  }
}
