/** What the scheduler's steps are for: a program that ends gives way to the one that executed it, a terminal
    that the user asks for is shown and gets the processor next, and no two processes share a kernel stack. */
module SchedulerLaws {
  import opened Scheduler
  import opened SchedulerInvariant
  import opened SchedulerRuns
  import opened Wrappers

  // ---------- Kernel stacks ----------

  const KERNEL_PAGE: int := 0x400000
  const STACK_BYTES: int := 0x8000

  /** Every process has 32 KB below its kernel stack pointer that no other one has. */
  lemma KernelStacksApart(p: int, q: int)
    requires p < q
    ensures Esp0(q) + 0x8000 <= Esp0(p)
  {
  }

  /** The two processes are live, and so their blocks record kernel stacks at least 32 KB apart; for tables of up to
      127 blocks these are within the page of 4 MB where the kernel is. */
  lemma StacksInPage(s: State, p: nat, q: nat)
    requires Inv(s) && 1 <= p < q < |s.pcbs| && s.pcbs[p].pid != FREE && s.pcbs[q].pid != FREE
    ensures s.pcbs[q].esp + STACK_BYTES <= s.pcbs[p].esp
    ensures |s.pcbs| <= 127 ==> KERNEL_PAGE <= s.pcbs[q].esp - STACK_BYTES && s.pcbs[p].esp < 2 * KERNEL_PAGE
  {
    hide Tables, TopRuns, Flags, TopsSaved;
  }

  /** The processor's kernel stack is the one recorded for the running process, and for no other. */
  lemma OwnKernelStack(s: State, q: nat)
    requires Inv(s) && 1 <= q < |s.pcbs| && s.pcbs[q].pid != FREE
    ensures s.cpu.tss.esp0 == s.pcbs[q].esp <==> q == s.currentPid
  {
    hide Tables, Flags, TopsSaved;
    RunningIsLive(s);
  }

  // ---------- Executing and ending ----------

  /** Which of the process blocks are in use, and for whom. */
  ghost predicate SameProcesses(a: seq<Pcb>, b: seq<Pcb>) {
    && |a| == |b|
    && forall pid :: 0 <= pid < |a| ==> a[pid].pid == b[pid].pid && (b[pid].pid != FREE ==> a[pid] == b[pid])
  }

  lemma RoomIsFree(s: State)
    requires Inv(s)
    ensures Full(s) <==> forall pid :: 1 <= pid < |s.pcbs| ==> s.pcbs[pid].pid != FREE
  {
    hide EntriesLive, LiveEntered, EnteredOnce, KernelStacks, TopRuns, Flags, TopsSaved, Esp0, Total;
    CountsLive(s.pcbs, s.stacks, s.active);
    CreatableTables(s);
    var pids := Pids(|s.pcbs|);
    if forall pid :: 1 <= pid < |s.pcbs| ==> s.pcbs[pid].pid != FREE {
      assert LivePids(s.pcbs) == pids;
    } else {
      var pid :| 1 <= pid < |s.pcbs| && s.pcbs[pid].pid == FREE;
      SubsetSize(LivePids(s.pcbs), pids - {pid});
    }
  }

  /** Execute refuses, and then changes nothing, if and only if every block is in use; otherwise the lowest free
      one is the new process, on top of the terminal on display, and a child of the process so far. */
  lemma ExecuteStarts(s: State)
    requires Inv(s) && CanExecute(s)
    ensures Creatable(s)
    ensures Execute(s) == s <==> forall pid :: 1 <= pid < |s.pcbs| ==> s.pcbs[pid].pid != FREE
    ensures var r, t := Execute(s), s.currentTerminal;
            Execute(s) != s ==>
              && 1 <= r.currentPid < |s.pcbs| && s.pcbs[r.currentPid].pid == FREE
              && (forall pid :: 1 <= pid < r.currentPid ==> s.pcbs[pid].pid != FREE)
              && r.stacks == s.stacks[t := s.stacks[t] + [r.currentPid]] && r.active == s.active + 1
              && r.pcbs[r.currentPid].parent == s.currentPid && r.cpu.tss.esp0 == r.pcbs[r.currentPid].esp
  {
    hide Tables, KernelStacks, TopsSaved, Esp0;
    CountsLive(s.pcbs, s.stacks, s.active);
    CreatableTables(s);
    RoomIsFree(s);
  }

  /** A program that executes another and gets the processor back when that ends finds everything as it was:
      stacks, saved contexts, screens, its own registers and kernel stack, and the other processes. */
  lemma HaltUndoesExecute(s: State)
    requires Inv(s) && CanExecute(s) && !Full(s)
    ensures Creatable(s) && Inv(Execute(s)) && CanHalt(Execute(s))
    ensures var started := Execute(s);
            && started.stacks[started.currentProcess] != []
            && 0 <= started.pcbs[started.currentPid].parent < |started.pcbs| && Creatable(Leave(started))
            && Halt(started).(pcbs := s.pcbs) == s && SameProcesses(Halt(started).pcbs, s.pcbs)
  {
    hide Tables, KernelStacks, TopsSaved, Esp0, FirstFree, Flags;
    ExecuteKeeps(s);
    var started, t := Execute(s), s.currentTerminal;
    StepDefined(started);
    FirstFreeIsFree(s.pcbs);
    RunningIsLive(s);
    RunningStack(s);
    FlagsAt(s, t);
    var r := Halt(started);
    assert s.stacks[t] + [started.currentPid] == started.stacks[t];
    assert Pop(started.stacks[t]) == s.stacks[t] && Pop(started.saved[t]) == s.saved[t];
  }

  lemma RunningStack(s: State)
    requires Inv(s)
    ensures s.pcbs[s.currentPid].esp == Esp0(s.currentPid) == s.cpu.tss.esp0
    ensures !s.waiting ==> s.mapped == ScreenPage(s, s.currentProcess)
  {
    hide Tables, Esp0, Flags, TopsSaved;
    RunningIsLive(s);
  }

  lemma FlagsAt(s: State, t: nat)
    requires Inv(s) && t < |s.stacks|
    ensures s.running[t] <==> s.stacks[t] != []
  {
    hide Tables, KernelStacks, Esp0, TopsSaved;
  }

  lemma HaltDefined(s: State)
    requires Inv(s)
    ensures s.stacks[s.currentProcess] != [] && 0 <= s.pcbs[s.currentPid].parent < |s.pcbs| && Creatable(Leave(s))
  {
    hide Inv, Leave, Creatable;
    StepDefined(s);
  }

  /** Whoever ends, in front or in the background: exactly its entry goes, its block is free again, and the process
      below it runs, on the kernel stack recorded for it. Nothing else changes. */
  lemma HaltReturns(s: State)
    requires Inv(s) && !s.waiting && |s.stacks[s.currentProcess]| > 1
    ensures s.stacks[s.currentProcess] != [] && 0 <= s.pcbs[s.currentPid].parent < |s.pcbs| && Creatable(Leave(s))
    ensures var r, t, n := Halt(s), s.currentProcess, |s.stacks[s.currentProcess]| - 1;
            && r.stacks[t] == s.stacks[t][..n] && r.saved[t] == s.saved[t][..n] && r.currentPid == s.stacks[t][n - 1]
            && r.active == s.active - 1 && |r.pcbs| == |s.pcbs| && r.pcbs[s.currentPid].pid == FREE
            && r.cpu == s.cpu.(tss := s.cpu.tss.(esp0 := s.pcbs[r.currentPid].esp))
            && r == s.(pcbs := r.pcbs, active := r.active, currentPid := r.currentPid, cpu := r.cpu,
                       stacks := s.stacks[t := r.stacks[t]], saved := s.saved[t := r.saved[t]])
            && forall pid :: 0 <= pid < |s.pcbs| && pid != s.currentPid ==> r.pcbs[pid] == s.pcbs[pid]
  {
    hide Tables, KernelStacks, TopsSaved, Esp0, FirstFree, Flags, Execute;
    HaltDefined(s);
    ParentOfRunning(s);
  }

  /** A base shell that ends in front is replaced by a new one, alone on its terminal and a child of no process. */
  lemma HaltRestarts(s: State)
    requires Inv(s) && CanHalt(s) && |s.stacks[s.currentProcess]| == 1
    ensures s.stacks[s.currentProcess] != [] && 0 <= s.pcbs[s.currentPid].parent < |s.pcbs| && Creatable(Leave(s))
    ensures var r, t := Halt(s), s.currentProcess;
            && r.stacks == s.stacks[t := [r.currentPid]] && r.saved == s.saved[t := [None]] && r.active == s.active
            && r.pcbs[r.currentPid].parent == SENTINEL && r.pcbs[r.currentPid].pid == r.currentPid
            && 1 <= r.currentPid <= s.currentPid && |r.pcbs| == |s.pcbs|
            && (r.currentPid != s.currentPid ==>
                  s.pcbs[r.currentPid].pid == FREE == r.pcbs[s.currentPid].pid)
            && r.cpu == s.cpu.(tss := s.cpu.tss.(esp0 := r.pcbs[r.currentPid].esp))
            && r == s.(pcbs := r.pcbs, currentPid := r.currentPid, cpu := r.cpu, stacks := r.stacks, saved := r.saved)
            && forall pid :: 0 <= pid < |s.pcbs| && pid != r.currentPid && pid != s.currentPid ==>
                 r.pcbs[pid] == s.pcbs[pid]
  {
    hide Tables, KernelStacks, TopsSaved, Esp0, FirstFree, Flags;
    HaltDefined(s);
    StepDefined(s);
    ParentOfRunning(s);
    RunningIsLive(s);
    RunningStack(s);
    FlagsAt(s, s.currentProcess);
    var left := Leave(s);
    FirstFreeIsFree(left.pcbs);
    FreeBefore(left.pcbs, s.currentPid);
    var r, t := Halt(s), s.currentProcess;
    assert Pop(s.stacks[t]) == [] && Pop(s.saved[t]) == [];
    assert [] + [r.currentPid] == [r.currentPid] && Pop(s.saved[t]) + [None] == [None];
    assert s.stacks[t := []][t := [r.currentPid]] == s.stacks[t := [r.currentPid]];
    assert s.saved[t := []][t := [None]] == s.saved[t := [None]];
  }

  lemma FreeBefore(pcbs: seq<Pcb>, pid: nat)
    requires 1 <= pid < |pcbs| && pcbs[pid].pid == FREE
    ensures FirstFree(pcbs, 1) <= pid
  {
  }

  /** All the time the stack of `t` has at least `h` entries. */
  ghost predicate Above(s: State, es: seq<Event>, t: nat, h: nat)
    requires Inv(s) && Legal(s, es) && t < |s.stacks|
    decreases |es|
  {
    |s.stacks[t]| >= h && (es == [] || Above(Next(s, es[0]), es[1..], t, h))
  }

  /** The lowest `h` entries of the stack of `t` with their process blocks, and what was saved for those that are
      certainly not on top. */
  ghost predicate SameBelow(s: State, r: State, t: nat, h: nat) {
    && t < |s.stacks| == |r.stacks| && h <= |s.stacks[t]| && h <= |r.stacks[t]| && r.stacks[t][..h] == s.stacks[t][..h]
    && t < |s.saved| && t < |r.saved| && 0 < h <= |s.saved[t]| && h <= |r.saved[t]|
    && r.saved[t][..h - 1] == s.saved[t][..h - 1]
    && |r.pcbs| == |s.pcbs| && forall i :: 0 <= i < h ==> SameBlock(s.pcbs, r.pcbs, s.stacks[t][i])
  }

  predicate SameBlock(a: seq<Pcb>, b: seq<Pcb>, pid: int) {
    1 <= pid < |a| == |b| && a[pid] == b[pid] && a[pid].pid == pid
  }

  lemma EntryIsLive(s: State, t: nat, i: nat)
    requires Inv(s) && t < |s.stacks| && i < |s.stacks[t]|
    ensures var pid := s.stacks[t][i]; SameBlock(s.pcbs, s.pcbs, pid)
    ensures |s.saved[t]| == |s.stacks[t]|
    ensures s.stacks[t][i] == s.currentPid <==> t == s.currentProcess && i == |s.stacks[t]| - 1
  {
    hide Tables, KernelStacks, Flags, TopsSaved, Esp0;
    TableEntry(s.pcbs, s.stacks, s.active, t, i, s.currentProcess, |s.stacks[s.currentProcess]| - 1);
  }

  lemma TableEntry(pcbs: seq<Pcb>, stacks: seq<seq<int>>, active: int, t: nat, i: nat, u: nat, j: nat)
    requires Tables(pcbs, stacks, active) && t < |stacks| && i < |stacks[t]| && u < |stacks| && j < |stacks[u]|
    ensures SameBlock(pcbs, pcbs, stacks[t][i])
    ensures stacks[t][i] == stacks[u][j] <==> t == u && i == j
  {
    hide LiveEntered, Total, LivePids, Below;
  }

  lemma ExecuteSameBelow(s: State, t: nat, h: nat)
    requires Inv(s) && Creatable(s) && t < |s.stacks| && 0 < h <= |s.stacks[t]|
    ensures SameBelow(s, Execute(s), t, h)
  {
    hide Tables, KernelStacks, Flags, TopsSaved, Esp0, FirstFree, TopRuns;
    FirstFreeIsFree(s.pcbs);
    forall i | 0 <= i < h ensures SameBlock(s.pcbs, Execute(s).pcbs, s.stacks[t][i]) {
      EntryIsLive(s, t, i);
    }
  }

  lemma HaltSameBelow(s: State, t: nat, h: nat)
    requires Inv(s) && CanHalt(s) && Allowed(s, Halts) && t < |s.stacks| && 2 <= h <= |s.stacks[t]|
    requires h <= |Next(s, Halts).stacks[t]|
    ensures SameBelow(s, Next(s, Halts), t, h)
  {
    hide Tables, KernelStacks, Flags, TopsSaved, TopRuns, Esp0, Halt, Leave, Creatable;
    var r := Next(s, Halts);
    HaltDefined(s);
    if |s.stacks[s.currentProcess]| > 1 {
      HaltReturns(s);
    } else {
      HaltRestarts(s);
    }
    EntryIsLive(s, t, 0);
    forall i | 0 <= i < h ensures SameBlock(s.pcbs, r.pcbs, s.stacks[t][i]) {
      EntryIsLive(s, t, i);
      assert i < |s.stacks[t]| - 1 || t != s.currentProcess;
    }
  }

  lemma StepSameBelow(s: State, e: Event, t: nat, h: nat)
    requires Inv(s) && Allowed(s, e) && t < |s.stacks| && 2 <= h <= |s.stacks[t]| && h <= |Next(s, e).stacks[t]|
    ensures SameBelow(s, Next(s, e), t, h)
  {
    hide Tables, KernelStacks, Flags, TopsSaved, TopRuns, Esp0, Halt, Leave, Creatable, Execute, NextProcess, Cleared;
    StepDefined(s);
    EntryIsLive(s, t, 0);
    if e.Executes? {
      ExecuteSameBelow(s, t, h);
    } else if e.Halts? {
      HaltSameBelow(s, t, h);
    } else {
      StacksStay(s, e, t);
      forall i | 0 <= i < h ensures SameBlock(s.pcbs, Next(s, e).pcbs, s.stacks[t][i]) {
        EntryIsLive(s, t, i);
        NewIsFree(s, e, s.stacks[t][i]);
      }
    }
  }

  /** At most the top of the stack is saved anew. */
  ghost predicate Stays(s: State, r: State, t: nat) {
    && t < |s.stacks| == |r.stacks| && |r.saved| == |s.saved| && |r.pcbs| == |s.pcbs| && t < |s.saved|
    && |s.saved[t]| == |s.stacks[t]| > 0 && r.stacks[t] == s.stacks[t] && |r.saved[t]| == |s.saved[t]|
    && r.saved[t][..|s.stacks[t]| - 1] == s.saved[t][..|s.stacks[t]| - 1]
  }

  lemma TickStays(s: State, esp: int, ebp: int, t: nat)
    requires InTables(s) && t < |s.stacks| && s.stacks[t] != []
    ensures Stays(s, Tick(s, esp, ebp), t)
  {
    hide NextProcess, Esp0;
    var saved := Saved(s, esp, ebp);
    assert Stays(s, saved, t);
    assert Stays(saved, Dispatch(saved, NextProcess(saved), esp, ebp), t);
  }

  lemma SwitchStays(s: State, num: nat, t: nat)
    requires Inv(s) && Creatable(s) && num < |s.stacks| && t < |s.stacks| && s.stacks[t] != []
    ensures Stays(s, Switch(s, num), t)
  {
    hide Tables, KernelStacks, TopsSaved, TopRuns, Esp0, Cleared;
  }

  /** Ticks, switches and writes leave a stack with processes as it is. */
  lemma StacksStay(s: State, e: Event, t: nat)
    requires Inv(s) && Allowed(s, e) && t < |s.stacks| && s.stacks[t] != [] && !e.Executes? && !e.Halts?
    ensures Stays(s, Next(s, e), t)
  {
    hide Tables, KernelStacks, TopsSaved, TopRuns, Flags, Esp0, Tick, Switch, CanSwitch, Creatable, Leave;
    StepDefined(s);
    match e
    case Ticks(esp, ebp) => TickStays(s, esp, ebp, t);
    case Switches(num) => SwitchStays(s, num, t);
    case Writes(_, _) =>
  }

  lemma NewIsFree(s: State, e: Event, pid: int)
    requires Inv(s) && Allowed(s, e) && !e.Executes? && !e.Halts? && SameBlock(s.pcbs, s.pcbs, pid)
    ensures SameBlock(s.pcbs, Next(s, e).pcbs, pid)
  {
    hide Tables, KernelStacks, TopsSaved, TopRuns, Esp0, NextProcess, Cleared, FirstFree;
    StepDefined(s);
    FirstFreeIsFree(s.pcbs);
  }

  lemma SameBelowTwice(a: State, b: State, c: State, t: nat, h: nat)
    requires SameBelow(a, b, t, h) && SameBelow(b, c, t, h)
    ensures SameBelow(a, c, t, h)
  {
    assert forall i :: 0 <= i < h ==> b.stacks[t][i] == b.stacks[t][..h][i] == a.stacks[t][..h][i] == a.stacks[t][i];
  }

  lemma {:induction false} RunSameBelow(s: State, es: seq<Event>, t: nat, h: nat)
    requires Inv(s) && Legal(s, es) && t < |s.stacks| && 2 <= h && Above(s, es, t, h)
    ensures SameBelow(s, After(s, es), t, h)
    decreases |es|
  {
    hide Inv, Next, Allowed, SameBelow;
    if es == [] {
      NothingBelow(s, t, h);
    } else {
      var r := Next(s, es[0]);
      StepSameBelow(s, es[0], t, h);
      RunSameBelow(r, es[1..], t, h);
      SameBelowTwice(s, r, After(s, es), t, h);
    }
  }

  lemma NothingBelow(s: State, t: nat, h: nat)
    requires Inv(s) && t < |s.stacks| && 2 <= h <= |s.stacks[t]|
    ensures SameBelow(s, s, t, h)
  {
    forall i | 0 <= i < h ensures SameBlock(s.pcbs, s.pcbs, s.stacks[t][i]) {
      EntryIsLive(s, t, i);
    }
  }

  /** A program executes another. Whatever happens then, on all terminals and above it on its own, when the
      program that it executed ends, it goes on: its stack is the one it had, it is the current process, with the
      parent and the kernel stack that it had, and with what was saved for it last. */
  lemma CallsReturn(s: State, es: seq<Event>)
    requires Inv(s) && CanExecute(s) && !Full(s)
    requires var t, started := s.currentProcess, Next(s, Executes);
             && Legal(started, es) && Above(started, es, t, |s.stacks[t]| + 1)
             && var last := After(started, es);
                Allowed(last, Halts) && last.currentProcess == t && |last.stacks[t]| == |s.stacks[t]| + 1
    ensures var t, r := s.currentProcess, Next(After(Next(s, Executes), es), Halts);
            && r.stacks[t] == s.stacks[t] && |r.saved| == |s.saved| && r.saved[t] == s.saved[t]
            && r.currentProcess == t && r.currentPid == s.currentPid && |r.pcbs| == |s.pcbs|
            && 0 <= s.currentPid < |s.pcbs| && r.pcbs[s.currentPid] == s.pcbs[s.currentPid]
            && r.cpu.tss.esp0 == s.cpu.tss.esp0
  {
    hide Tables, KernelStacks, Flags, TopsSaved, Esp0, Halt, Leave, Creatable, Legal, Above, After, SameBelow;
    var t, h, started := s.currentProcess, |s.stacks[s.currentProcess]|, Next(s, Executes);
    var last := After(started, es);
    CalledOnTop(s);
    RunSameBelow(started, es, t, h + 1);
    ReturnsBelow(s, started, last);
  }

  lemma CalledOnTop(s: State)
    requires Inv(s) && CanExecute(s) && !Full(s)
    ensures var t, r := s.currentProcess, Next(s, Executes);
            && |s.saved| == |r.saved| == |s.stacks| && r.currentProcess == t && |s.pcbs| == |r.pcbs|
            && |s.stacks[t]| >= 1 && r.stacks[t] == s.stacks[t] + [r.currentPid] && r.saved[t] == s.saved[t] + [None]
            && s.currentPid == Last(s.stacks[t]) && |s.saved[t]| == |s.stacks[t]|
            && SameBlock(s.pcbs, r.pcbs, s.currentPid)
  {
    hide Tables, KernelStacks, TopsSaved, Flags, Esp0, FirstFree;
    StepDefined(s);
    RunningIsLive(s);
    FirstFreeIsFree(s.pcbs);
  }

  lemma ReturnsBelow(s: State, started: State, last: State)
    requires Inv(s) && CanExecute(s) && !Full(s) && started == Next(s, Executes)
    requires Inv(last) && CanHalt(last) && last.currentProcess == s.currentProcess
    requires var t := s.currentProcess;
             SameBelow(started, last, t, |s.stacks[t]| + 1) && |last.stacks[t]| == |s.stacks[t]| + 1
    ensures Allowed(last, Halts)
    ensures var t, r := s.currentProcess, Next(last, Halts);
            && r.stacks[t] == s.stacks[t] && |r.saved| == |s.saved| && r.saved[t] == s.saved[t]
            && r.currentProcess == t && r.currentPid == s.currentPid && |r.pcbs| == |s.pcbs|
            && 0 <= s.currentPid < |s.pcbs| && r.pcbs[s.currentPid] == s.pcbs[s.currentPid]
            && r.cpu.tss.esp0 == s.cpu.tss.esp0
  {
    hide Tables, KernelStacks, TopsSaved, Flags, Execute, Halt, Leave, Creatable, Esp0;
    var t, h, r := s.currentProcess, |s.stacks[s.currentProcess]|, Next(last, Halts);
    CalledOnTop(s);
    HaltReturns(last);
    RunningStack(s);
    EntryIsLive(last, t, h - 1);
    assert last.stacks[t][..h] == last.stacks[t][..h + 1][..h] == started.stacks[t][..h + 1][..h] == s.stacks[t];
    assert last.saved[t][..h] == started.saved[t][..h] == s.saved[t];
    assert started.stacks[t][h - 1] == s.currentPid;
  }

  // ---------- Changing terminals ----------

  /** Whether or not all blocks are in use, a terminal with processes is shown when the user asks for it: its page
      comes to the display, the one that was shown goes to its own, and the terminal is asked for. */
  lemma SwitchShows(s: State, num: nat)
    requires Inv(s) && num < |s.stacks| && s.stacks[num] != []
    ensures Creatable(s) && Switch(s, num).currentTerminal == num
    ensures num != s.currentTerminal ==>
              Switch(s, num) == s.(currentTerminal := num, request := num, waiting := true, video := s.backing[num],
                                   backing := s.backing[s.currentTerminal := s.video])
  {
    hide Tables, KernelStacks, TopsSaved, TopRuns, Esp0, FirstFree;
    StepDefined(s);
  }

  /** A switch changes nothing if and only if the terminal is shown already, or has no process and every block is in
      use; otherwise the terminal is shown. */
  lemma SwitchIgnores(s: State, num: nat)
    requires Inv(s) && num < |s.stacks|
    ensures Creatable(s)
    ensures Switch(s, num) == s <==>
              num == s.currentTerminal
              || (s.stacks[num] == [] && forall pid :: 1 <= pid < |s.pcbs| ==> s.pcbs[pid].pid != FREE)
    ensures Switch(s, num) != s ==> Switch(s, num).currentTerminal == num
  {
    hide Tables, KernelStacks, TopsSaved, TopRuns, Esp0, FirstFree, Cleared;
    StepDefined(s);
    RoomIsFree(s);
  }

  /** The part of a page that holds the 2000 cells of a blank screen: spaces, each with attribute 7. */
  ghost predicate IsBlank(page: Page) {
    forall k :: 0 <= k < 2000 ==> (2 * k < |page| ==> page[2 * k] == ' ')
                                  && (2 * k + 1 < |page| ==> page[2 * k + 1] == 7 as char)
  }

  lemma ClearedIsBlank(page: Page)
    ensures IsBlank(Cleared(page)) && |Cleared(page)| == |page|
    ensures forall i :: 4000 <= i < |page| ==> Cleared(page)[i] == page[i]
  {
  }

  /** A fresh terminal that is shown has a blank screen, and one process, a child of none, that runs in front. */
  lemma SwitchOpens(s: State, num: nat)
    requires Inv(s) && num < |s.stacks| && s.stacks[num] == [] && num != s.currentTerminal && !Full(s)
    ensures Creatable(s)
    ensures var r := Switch(s, num);
            && r.currentTerminal == r.currentProcess == num && r.stacks == s.stacks[num := [r.currentPid]]
            && r.saved == s.saved[num := [None]] && r.active == s.active + 1 && !r.waiting && r.request == s.request
            && 1 <= r.currentPid < |s.pcbs| == |r.pcbs| && s.pcbs[r.currentPid].pid == FREE
            && r.pcbs == s.pcbs[r.currentPid := r.pcbs[r.currentPid]] && r.pcbs[r.currentPid].parent == SENTINEL
            && r.cpu == s.cpu.(tss := s.cpu.tss.(esp0 := r.pcbs[r.currentPid].esp))
            && IsBlank(r.video) && r.mapped == Video && r.backing == s.backing[s.currentTerminal := s.video]
  {
    hide Tables, KernelStacks, TopsSaved, TopRuns, Esp0, FirstFree, Cleared;
    StepDefined(s);
    FirstFreeIsFree(s.pcbs);
    ClearedIsBlank(s.backing[num]);
    assert s.saved[num] == [];
    assert [] + [Switch(s, num).currentPid] == [Switch(s, num).currentPid] && s.saved[num] + [None] == [None];
  }

  // ---------- Who is served ----------

  /** The tick after a switch to a terminal with processes goes to that terminal: its top process runs, in front, with
      what was saved for it, or goes on if it was running in the background. */
  lemma TickServes(s: State, num: nat, esp: int, ebp: int)
    requires Inv(s) && num < |s.stacks| && s.stacks[num] != [] && num != s.currentTerminal
    ensures Creatable(s) && Inv(Switch(s, num)) && |s.saved| == |s.stacks| && |s.saved[num]| == |s.stacks[num]|
    ensures var r := Tick(Switch(s, num), esp, ebp);
            && r.currentProcess == r.currentTerminal == num && r.currentPid == Last(s.stacks[num])
            && r.mapped == Video && r.video == s.backing[num] && r.request == NO_REQUEST && !r.waiting
            && (num != s.currentProcess ==> Last(s.saved[num]).Some? && r.cpu == Restored(s, num))
            && (num == s.currentProcess ==> r.cpu == Context(esp, ebp, s.cpu.tss))
  {
    hide Tables, KernelStacks, Flags, FirstFree, Switch, Esp0;
    SwitchShows(s, num);
    SwitchKeepsShown(s, num);
    RunningStack(s);
  }

  lemma SwitchKeepsShown(s: State, num: nat)
    requires Inv(s) && num < |s.stacks| && s.stacks[num] != []
    ensures Creatable(s) && Inv(Switch(s, num))
  {
    hide Tables, KernelStacks, TopsSaved, TopRuns, Switch, Esp0;
    FlagsAt(s, num);
    SwitchKeeps(s, num);
  }

  /** The terminal that the user has asked for and that has not had its turn yet: the last one with processes that was
      not shown at the time. */
  ghost function Asked(s: State, e: Event, asked: int): int
    requires Inv(s) && Allowed(s, e)
  {
    match e
    case Ticks(_, _) => NO_REQUEST
    case Switches(num) => if num != s.currentTerminal && s.stacks[num] != [] then num else asked
    case _ => asked
  }

  ghost function AskedAfter(s: State, es: seq<Event>, asked: int): int
    requires Inv(s) && Legal(s, es)
    decreases |es|
  {
    if es == [] then asked else AskedAfter(Next(s, es[0]), es[1..], Asked(s, es[0], asked))
  }

  lemma RequestIsAsked(s: State, e: Event)
    requires Inv(s) && Allowed(s, e)
    ensures Next(s, e).request == Asked(s, e, s.request)
  {
    hide Tables, KernelStacks, TopsSaved, TopRuns, Esp0, FirstFree, Cleared;
    StepDefined(s);
  }

  lemma {:induction false} RequestsOverRuns(s: State, es: seq<Event>)
    requires Inv(s) && Legal(s, es)
    ensures After(s, es).request == AskedAfter(s, es, s.request)
    decreases |es|
  {
    hide Inv, Next, Allowed, Asked;
    if es != [] {
      RequestIsAsked(s, es[0]);
      RequestsOverRuns(Next(s, es[0]), es[1..]);
    }
  }

  /** After every run, the next tick goes to the terminal that the user asked for last, if it has not had its turn;
      if there is none, to the next one with processes. */
  lemma ServedOverRuns(s: State, es: seq<Event>, esp: int, ebp: int)
    requires Inv(s) && Legal(s, es) && ebp != 0
    ensures Allowed(After(s, es), Ticks(esp, ebp))
    ensures var last, asked := After(s, es), AskedAfter(s, es, s.request);
            var r := Next(last, Ticks(esp, ebp));
            && |r.stacks| == |last.stacks| && 0 <= last.currentProcess < |last.stacks|
            && r.currentProcess == (if asked != NO_REQUEST then asked
                                    else FirstBusy(last.stacks, last.currentProcess, 1))
            && r.request == NO_REQUEST && 0 <= r.currentProcess < |r.stacks| && r.stacks[r.currentProcess] != []
            && r.currentPid == Last(r.stacks[r.currentProcess])
  {
    hide Tables, KernelStacks, TopsSaved, Flags, Esp0, FirstFree, Legal, After, AskedAfter, FirstBusy;
    RequestsOverRuns(s, es);
    ServesRequest(After(s, es), esp, ebp);
  }

  lemma ServesRequest(s: State, esp: int, ebp: int)
    requires Inv(s) && ebp != 0
    ensures var r := Next(s, Ticks(esp, ebp));
            && r.currentProcess == (if s.request != NO_REQUEST then s.request
                                    else FirstBusy(s.stacks, s.currentProcess, 1))
            && r.request == NO_REQUEST
            && InTables(r) && r.stacks[r.currentProcess] != [] && r.currentPid == Last(r.stacks[r.currentProcess])
  {
    hide Tables, KernelStacks, TopsSaved, Flags, Esp0, FirstFree, FirstBusy;
    StepDefined(s);
  }

  // ---------- Starting up ----------

  /** The first shell is process 1, alone on terminal 0 and a child of none, on a kernel stack of its own. */
  lemma FirstShell(terminals: nat, blocks: nat, cpu: Context, bootStack: int, video: Page, backing: seq<Page>)
    requires 0 < terminals == |backing| && 2 <= blocks
    ensures var blank := Blank(terminals, blocks, cpu, bootStack, video, backing);
            && InTables(blank) && Creatable(blank)
            && var r := Execute(blank);
               && r.currentPid == 1 && r.active == 1 && r.currentProcess == r.currentTerminal == 0 && r.mapped == Video
               && r.request == NO_REQUEST && |r.stacks| == terminals && |r.pcbs| == blocks
               && (forall t :: 0 <= t < terminals ==> r.stacks[t] == if t == 0 then [1] else [])
               && (forall pid :: 2 <= pid < blocks ==> r.pcbs[pid].pid == FREE)
               && r.pcbs[1] == Pcb(1, SENTINEL, 0x7F7FF1) && r.cpu == cpu.(tss := cpu.tss.(esp0 := 0x7F7FF1))
               && r.video == video && r.backing == backing
  {
    hide Tables;
    BootKeeps(terminals, blocks, cpu, bootStack, video, backing);
    BlankReady(terminals, blocks, cpu, bootStack, video, backing);
    var blank := Blank(terminals, blocks, cpu, bootStack, video, backing);
    assert blank.pcbs[1].pid == FREE;
    assert FirstFree(blank.pcbs, 1) == 1;
    assert [] + [1] == [1];
  }
}
