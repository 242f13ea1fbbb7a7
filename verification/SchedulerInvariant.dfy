/** What holds of the scheduler's tables in every reachable state. */
module SchedulerInvariant {
  import Arith
  import opened Scheduler
  import opened Wrappers

  // ---------- Processes and stacks ----------

  ghost predicate On(stacks: seq<seq<int>>, t: int, i: int, pid: int) {
    0 <= t < |stacks| && 0 <= i < |stacks[t]| && stacks[t][i] == pid
  }

  /** The process below an entry of a stack; below the base there is the sentinel. */
  function Below(stack: seq<int>, i: int): int
    requires 0 <= i < |stack|
  {
    if i == 0 then SENTINEL else stack[i - 1]
  }

  /** Every entry is a live process, and its parent is the entry below it. */
  ghost predicate EntriesLive(pcbs: seq<Pcb>, stacks: seq<seq<int>>) {
    && (forall t, i :: 0 <= t < |stacks| && 0 <= i < |stacks[t]| ==>
          var pid := stacks[t][i]; 1 <= pid < |pcbs| && pcbs[pid].pid == pid)
    && (forall t, i {:trigger Below(stacks[t], i)} :: 0 <= t < |stacks| && 0 <= i < |stacks[t]| ==>
          pcbs[stacks[t][i]].parent == Below(stacks[t], i))
  }

  /** Every live process is an entry. */
  ghost predicate LiveEntered(pcbs: seq<Pcb>, stacks: seq<seq<int>>) {
    forall pid :: 1 <= pid < |pcbs| && pcbs[pid].pid != FREE ==> exists t, i :: On(stacks, t, i, pid)
  }

  /** No process is entered twice. */
  ghost predicate EnteredOnce(stacks: seq<seq<int>>) {
    forall t, i, u, j ::
      (0 <= t < |stacks| && 0 <= i < |stacks[t]| && 0 <= u < |stacks| && 0 <= j < |stacks[u]|
       && stacks[t][i] == stacks[u][j]) ==> t == u && i == j
  }

  function Total(stacks: seq<seq<int>>): nat {
    if stacks == [] then 0 else Total(stacks[..|stacks| - 1]) + |stacks[|stacks| - 1]|
  }

  ghost function LivePids(pcbs: seq<Pcb>): set<int> {
    set pid | 1 <= pid < |pcbs| && pcbs[pid].pid != FREE
  }

  ghost predicate Tables(pcbs: seq<Pcb>, stacks: seq<seq<int>>, active: int) {
    && EntriesLive(pcbs, stacks) && LiveEntered(pcbs, stacks) && EnteredOnce(stacks)
    && Total(stacks) == active == |LivePids(pcbs)|
  }

  lemma {:induction false} TotalUpdate(stacks: seq<seq<int>>, t: nat, stack: seq<int>)
    requires t < |stacks|
    ensures Total(stacks[t := stack]) == Total(stacks) - |stacks[t]| + |stack|
  {
    var n := |stacks| - 1;
    if t < n {
      TotalUpdate(stacks[..n], t, stack);
      assert stacks[t := stack][..n] == stacks[..n][t := stack];
    } else {
      assert stacks[t := stack][..n] == stacks[..n];
    }
  }

  /** The pids above the sentinel. */
  ghost function Pids(n: nat): (r: set<int>)
    requires 1 <= n
    ensures forall pid :: pid in r <==> 1 <= pid < n
    ensures |r| == n - 1
  {
    if n == 1 then {} else Pids(n - 1) + {n - 1}
  }

  lemma SubsetSize<T>(a: set<T>, b: set<T>)
    requires a <= b
    ensures |a| <= |b| && (|a| == |b| ==> a == b)
  {
    assert b == a + (b - a);
  }

  /** With as many live processes as there are blocks, none is free; with fewer, some block is. */
  lemma RoomMeansFree(pcbs: seq<Pcb>)
    requires 1 <= |pcbs|
    ensures |LivePids(pcbs)| <= |pcbs| - 1
    ensures |LivePids(pcbs)| < |pcbs| - 1 ==> FirstFree(pcbs, 1) < |pcbs|
  {
    var pids := Pids(|pcbs|);
    SubsetSize(LivePids(pcbs), pids);
    if FirstFree(pcbs, 1) == |pcbs| {
      assert LivePids(pcbs) == pids;
    }
  }

  lemma CreatableTables(s: State)
    requires 1 <= |s.pcbs| && s.active == |LivePids(s.pcbs)|
    ensures Creatable(s) && s.active <= |s.pcbs| - 1
  {
    RoomMeansFree(s.pcbs);
  }

  // ---------- Pushing and popping ----------

  function Pushed(stacks: seq<seq<int>>, t: nat, pid: int): (r: seq<seq<int>>)
    requires t < |stacks|
    ensures |r| == |stacks|
  {
    stacks[t := stacks[t] + [pid]]
  }

  lemma PushTables(pcbs: seq<Pcb>, stacks: seq<seq<int>>, active: int, t: nat, pid: nat, esp: int)
    requires Tables(pcbs, stacks, active) && t < |stacks| && 1 <= pid < |pcbs| && pcbs[pid].pid == FREE
    ensures var parent := if stacks[t] == [] then SENTINEL else Last(stacks[t]);
            Tables(pcbs[pid := Pcb(pid, parent, esp)], Pushed(stacks, t, pid), active + 1)
  {
    hide EntriesLive, LiveEntered, EnteredOnce, Total;
    var parent := if stacks[t] == [] then SENTINEL else Last(stacks[t]);
    NotEntered(pcbs, stacks, pid);
    PushEntriesLive(pcbs, stacks, t, pid, esp);
    PushLiveEntered(pcbs, stacks, t, pid, Pcb(pid, parent, esp));
    PushEnteredOnce(stacks, t, pid);
    TotalUpdate(stacks, t, stacks[t] + [pid]);
    OneMoreLive(pcbs, pid, Pcb(pid, parent, esp));
  }

  lemma OneMoreLive(pcbs: seq<Pcb>, pid: nat, pcb: Pcb)
    requires 1 <= pid < |pcbs| && pcbs[pid].pid == FREE && pcb.pid != FREE
    ensures |LivePids(pcbs[pid := pcb])| == |LivePids(pcbs)| + 1
    ensures |LivePids(pcbs)| == |LivePids(pcbs[pid := pcb])| - 1
  {
    assert LivePids(pcbs[pid := pcb]) == LivePids(pcbs) + {pid as int};
  }

  lemma NotEntered(pcbs: seq<Pcb>, stacks: seq<seq<int>>, pid: nat)
    requires EntriesLive(pcbs, stacks) && 1 <= pid < |pcbs| && pcbs[pid].pid == FREE
    ensures forall t, i :: 0 <= t < |stacks| && 0 <= i < |stacks[t]| ==> stacks[t][i] != pid
  {
  }

  lemma PushEntriesLive(pcbs: seq<Pcb>, stacks: seq<seq<int>>, t: nat, pid: nat, esp: int)
    requires EntriesLive(pcbs, stacks) && t < |stacks| && 1 <= pid < |pcbs|
    requires forall t, i :: 0 <= t < |stacks| && 0 <= i < |stacks[t]| ==> stacks[t][i] != pid
    ensures var parent := if stacks[t] == [] then SENTINEL else Last(stacks[t]);
            EntriesLive(pcbs[pid := Pcb(pid, parent, esp)], Pushed(stacks, t, pid))
  {
    var after := Pushed(stacks, t, pid);
    var parent := if stacks[t] == [] then SENTINEL else Last(stacks[t]);
    var now := pcbs[pid := Pcb(pid, parent, esp)];
    forall u, i | 0 <= u < |after| && 0 <= i < |after[u]|
      ensures var q := after[u][i];
              1 <= q < |now| && now[q].pid == q && now[q].parent == Below(after[u], i)
    {
      if u == t && i == |stacks[t]| {
        assert after[u][i] == pid;
      } else {
        assert after[u][i] == stacks[u][i] && Below(after[u], i) == Below(stacks[u], i);
      }
    }
  }

  lemma PushLiveEntered(pcbs: seq<Pcb>, stacks: seq<seq<int>>, t: nat, pid: nat, pcb: Pcb)
    requires LiveEntered(pcbs, stacks) && t < |stacks| && 1 <= pid < |pcbs|
    ensures LiveEntered(pcbs[pid := pcb], Pushed(stacks, t, pid))
  {
    var after := Pushed(stacks, t, pid);
    var now := pcbs[pid := pcb];
    forall q | 1 <= q < |now| && now[q].pid != FREE
      ensures exists u, i :: On(after, u, i, q)
    {
      if q == pid {
        assert On(after, t, |stacks[t]|, pid);
      } else {
        var u, i :| On(stacks, u, i, q);
        assert On(after, u, i, q);
      }
    }
  }

  lemma PushEnteredOnce(stacks: seq<seq<int>>, t: nat, pid: int)
    requires EnteredOnce(stacks) && t < |stacks|
    requires forall t, i :: 0 <= t < |stacks| && 0 <= i < |stacks[t]| ==> stacks[t][i] != pid
    ensures EnteredOnce(Pushed(stacks, t, pid))
  {
    var after := Pushed(stacks, t, pid);
    forall u, i, v, j | 0 <= u < |after| && 0 <= i < |after[u]| && 0 <= v < |after| && 0 <= j < |after[v]|
                        && after[u][i] == after[v][j]
      ensures u == v && i == j
    {
      PushedEntry(stacks, t, pid, u, i);
      PushedEntry(stacks, t, pid, v, j);
    }
  }

  lemma PushedEntry(stacks: seq<seq<int>>, t: nat, pid: int, u: nat, i: nat)
    requires t < |stacks| && u < |stacks| && i < |Pushed(stacks, t, pid)[u]|
    ensures if u == t && i == |stacks[t]| then Pushed(stacks, t, pid)[u][i] == pid
            else i < |stacks[u]| && Pushed(stacks, t, pid)[u][i] == stacks[u][i]
  {
  }

  function Popped(stacks: seq<seq<int>>, t: nat): (r: seq<seq<int>>)
    requires t < |stacks| && stacks[t] != []
    ensures |r| == |stacks|
  {
    stacks[t := Pop(stacks[t])]
  }

  lemma PopTables(pcbs: seq<Pcb>, stacks: seq<seq<int>>, active: int, t: nat)
    requires Tables(pcbs, stacks, active) && t < |stacks| && stacks[t] != []
    ensures var pid := Last(stacks[t]);
            1 <= pid < |pcbs| && Tables(pcbs[pid := pcbs[pid].(pid := FREE)], Popped(stacks, t), active - 1)
  {
    hide EntriesLive, LiveEntered, EnteredOnce, Total;
    var pid := Last(stacks[t]);
    LastLive(pcbs, stacks, t);
    PopEntriesLive(pcbs, stacks, t);
    PopLiveEntered(pcbs, stacks, t);
    PopEnteredOnce(stacks, t);
    TotalUpdate(stacks, t, Pop(stacks[t]));
    var freed := pcbs[pid := pcbs[pid].(pid := FREE)];
    assert freed[pid := pcbs[pid]] == pcbs;
    OneMoreLive(freed, pid, pcbs[pid]);
  }

  lemma LastLive(pcbs: seq<Pcb>, stacks: seq<seq<int>>, t: nat)
    requires EntriesLive(pcbs, stacks) && t < |stacks| && stacks[t] != []
    ensures var pid := Last(stacks[t]);
            && 1 <= pid < |pcbs| && pcbs[pid].pid == pid
            && pcbs[pid].parent == if |stacks[t]| == 1 then SENTINEL else stacks[t][|stacks[t]| - 2]
  {
    var parent := Below(stacks[t], |stacks[t]| - 1);
  }

  lemma PoppedEntry(stacks: seq<seq<int>>, t: nat, u: nat, i: nat)
    requires t < |stacks| && stacks[t] != [] && u < |stacks| && i < |Popped(stacks, t)[u]|
    ensures i < |stacks[u]| && Popped(stacks, t)[u][i] == stacks[u][i]
        && Below(Popped(stacks, t)[u], i) == Below(stacks[u], i)
    ensures EnteredOnce(stacks) ==> stacks[u][i] != Last(stacks[t])
  {
  }

  lemma PopEntriesLive(pcbs: seq<Pcb>, stacks: seq<seq<int>>, t: nat)
    requires EntriesLive(pcbs, stacks) && EnteredOnce(stacks) && t < |stacks| && stacks[t] != []
    ensures var pid := Last(stacks[t]);
            1 <= pid < |pcbs| && EntriesLive(pcbs[pid := pcbs[pid].(pid := FREE)], Popped(stacks, t))
  {
    var after := Popped(stacks, t);
    forall u, i | 0 <= u < |after| && 0 <= i < |after[u]|
      ensures after[u][i] == stacks[u][i] != Last(stacks[t]) && Below(after[u], i) == Below(stacks[u], i)
    {
      PoppedEntry(stacks, t, u, i);
    }
  }

  lemma PopLiveEntered(pcbs: seq<Pcb>, stacks: seq<seq<int>>, t: nat)
    requires LiveEntered(pcbs, stacks) && t < |stacks| && stacks[t] != []
    requires 1 <= Last(stacks[t]) < |pcbs|
    ensures var pid := Last(stacks[t]);
            LiveEntered(pcbs[pid := pcbs[pid].(pid := FREE)], Popped(stacks, t))
  {
    var pid, after := Last(stacks[t]), Popped(stacks, t);
    forall q | 1 <= q < |pcbs| && q != pid && pcbs[q].pid != FREE
      ensures exists u, i :: On(after, u, i, q)
    {
      var u, i :| On(stacks, u, i, q);
      assert On(after, u, i, q);
    }
  }

  lemma PopEnteredOnce(stacks: seq<seq<int>>, t: nat)
    requires EnteredOnce(stacks) && t < |stacks| && stacks[t] != []
    ensures EnteredOnce(Popped(stacks, t))
  {
    var after := Popped(stacks, t);
    assert forall u, i :: 0 <= u < |after| && 0 <= i < |after[u]| ==> i < |stacks[u]| && after[u][i] == stacks[u][i];
  }

  // ---------- The invariant ----------

  /** The kernel stack recorded for a live process is the one of its pid. */
  ghost predicate KernelStacks(pcbs: seq<Pcb>) {
    forall pid :: 1 <= pid < |pcbs| && pcbs[pid].pid != FREE ==> pcbs[pid].esp == Esp0(pid)
  }

  ghost predicate Flags(s: State)
    requires InTables(s)
  {
    forall t :: 0 <= t < |s.stacks| ==> (s.running[t] <==> s.stacks[t] != [])
  }

  /** Whatever waits for its turn was saved. */
  ghost predicate TopsSaved(s: State)
    requires InTables(s)
  {
    forall t :: 0 <= t < |s.stacks| && t != s.currentProcess && s.stacks[t] != [] ==> Last(s.saved[t]).Some?
  }

  /** The running process is the top of its terminal's stack. */
  ghost predicate TopRuns(s: State)
    requires InTables(s)
  {
    && s.stacks[s.currentProcess] != [] && s.currentPid == Last(s.stacks[s.currentProcess])
    && s.cpu.tss.esp0 == Esp0(s.currentPid)
  }

  ghost predicate Inv(s: State) {
    && InTables(s) && s.pcbs[SENTINEL].pid == SENTINEL
    && Tables(s.pcbs, s.stacks, s.active) && KernelStacks(s.pcbs)
    && TopRuns(s) && Flags(s) && TopsSaved(s)
    && s.stacks[s.currentTerminal] != []
    && (s.request != NO_REQUEST ==> s.stacks[s.request] != [])
    && (!s.waiting ==> s.mapped == ScreenPage(s, s.currentProcess))
    && (s.waiting ==> s.request != NO_REQUEST)
    && (s.mapped.Backing? ==> 0 <= s.mapped.terminal < |s.stacks|)
  }

  // ---------- The steps keep it ----------

  /** Only the process in front runs programs: `execute` pushes on the terminal on display. */
  predicate CanExecute(s: State) {
    !s.waiting && s.currentProcess == s.currentTerminal
  }

  /** A base shell ends only in front, for the one started in its place is pushed on the terminal on
      display. */
  predicate CanHalt(s: State)
    requires InTables(s)
  {
    !s.waiting && (|s.stacks[s.currentProcess]| == 1 ==> s.currentProcess == s.currentTerminal)
  }

  /** A fresh terminal is opened only once the timer has saved the process that it takes over from. */
  predicate CanSwitch(s: State, num: nat)
    requires InTables(s) && num < |s.stacks|
  {
    Ignored(s, num) || s.running[num] || (s.saved[s.currentProcess] != [] && Last(s.saved[s.currentProcess]).Some?)
  }

  /** Pushing a process on the terminal on display, from a state that has everything but a running
      process of its own: the common part of the three ways to get there. */
  ghost predicate Ready(s: State) {
    && InTables(s) && s.pcbs[SENTINEL].pid == SENTINEL
    && Tables(s.pcbs, s.stacks, s.active) && KernelStacks(s.pcbs)
    && s.currentProcess == s.currentTerminal && !s.waiting
    && s.currentPid == (if s.stacks[s.currentProcess] == [] then SENTINEL else Last(s.stacks[s.currentProcess]))
    && (forall t :: 0 <= t < |s.stacks| && t != s.currentTerminal ==> (s.running[t] <==> s.stacks[t] != []))
    && TopsSaved(s)
    && (s.request != NO_REQUEST ==> s.request == s.currentTerminal || s.stacks[s.request] != [])
  }

  lemma CountsLive(pcbs: seq<Pcb>, stacks: seq<seq<int>>, active: int)
    requires Tables(pcbs, stacks, active)
    ensures active == |LivePids(pcbs)|
  {
  }

  lemma ReadyExecute(s: State)
    requires Ready(s) && !Full(s)
    ensures Creatable(s) && Inv(Execute(s))
  {
    hide Tables, Esp0, FirstFree;
    CountsLive(s.pcbs, s.stacks, s.active);
    CreatableTables(s);
    var pid := FirstFree(s.pcbs, 1);
    PushTables(s.pcbs, s.stacks, s.active, s.currentTerminal, pid, Esp0(pid));
  }

  lemma ExecuteKeeps(s: State)
    requires Inv(s) && CanExecute(s)
    ensures Creatable(s) && Inv(Execute(s))
  {
    hide Tables, KernelStacks, TopsSaved;
    CountsLive(s.pcbs, s.stacks, s.active);
    CreatableTables(s);
    if !Full(s) {
      ReadyExecute(s);
    }
  }

  /** The parent of the running process is a process block. */
  lemma ParentOfRunning(s: State)
    requires Inv(s)
    ensures s.stacks[s.currentProcess] != [] && 1 <= s.currentPid < |s.pcbs|
    ensures var stack := s.stacks[s.currentProcess];
            s.pcbs[s.currentPid].parent == (if |stack| == 1 then SENTINEL else stack[|stack| - 2])
    ensures var parent := s.pcbs[s.currentPid].parent;
            0 <= parent < |s.pcbs| && (parent == SENTINEL <==> |s.stacks[s.currentProcess]| == 1)
            && (parent != SENTINEL ==> s.pcbs[parent].esp == Esp0(parent)) && parent != s.currentPid
  {
    hide LiveEntered, LivePids, Total, Esp0;
    LastLive(s.pcbs, s.stacks, s.currentProcess);
    var stack := s.stacks[s.currentProcess];
    if |stack| > 1 {
      assert s.stacks[s.currentProcess][|stack| - 2] == stack[|stack| - 2];
    }
  }

  lemma LeaveKeeps(s: State)
    requires Inv(s)
    ensures s.stacks[s.currentProcess] != [] && 0 <= s.pcbs[s.currentPid].parent < |s.pcbs|
    ensures var left := Leave(s);
            && Tables(left.pcbs, left.stacks, left.active) && KernelStacks(left.pcbs)
            && InTables(left) && left.pcbs[SENTINEL].pid == SENTINEL
            && (left.currentPid == SENTINEL <==> left.stacks[s.currentProcess] == [])
            && (left.currentPid != SENTINEL ==>
                  && left.currentPid == Last(left.stacks[s.currentProcess])
                  && left.cpu.tss.esp0 == Esp0(left.currentPid))
  {
    hide Tables, Esp0, Flags, TopsSaved, KernelStacks;
    ParentOfRunning(s);
    PopTables(s.pcbs, s.stacks, s.active, s.currentProcess);
    var stack := s.stacks[s.currentProcess];
    assert |stack| > 1 ==> Last(Pop(stack)) == stack[|stack| - 2];
    FreeingKeepsKernelStacks(s.pcbs, s.currentPid);
  }

  lemma FreeingKeepsKernelStacks(pcbs: seq<Pcb>, pid: nat)
    requires KernelStacks(pcbs) && pid < |pcbs|
    ensures KernelStacks(pcbs[pid := pcbs[pid].(pid := FREE)])
  {
  }

  /** A base shell that may end leaves everything ready for the one started in its place. */
  lemma LeaveReady(s: State)
    requires Inv(s) && CanHalt(s)
    ensures s.stacks[s.currentProcess] != [] && 0 <= s.pcbs[s.currentPid].parent < |s.pcbs|
    ensures var left := Leave(s);
            && InTables(left) && Creatable(left) && !Full(left)
            && if left.currentPid == SENTINEL then Ready(left) else Inv(left)
  {
    hide Tables, KernelStacks, Esp0;
    LeaveKeeps(s);
    var left := Leave(s);
    CountsLive(left.pcbs, left.stacks, left.active);
    CountsLive(s.pcbs, s.stacks, s.active);
    CreatableTables(left);
    CreatableTables(s);
  }

  lemma HaltKeeps(s: State)
    requires Inv(s) && CanHalt(s)
    ensures s.stacks[s.currentProcess] != [] && 0 <= s.pcbs[s.currentPid].parent < |s.pcbs|
    ensures Creatable(Leave(s)) && Inv(Halt(s))
  {
    hide Ready, Leave, Tables, KernelStacks, TopRuns, TopsSaved, Flags;
    LeaveReady(s);
    if Leave(s).currentPid == SENTINEL {
      ReadyExecute(Leave(s));
    }
  }

  // Saving and dispatching.

  lemma SavedKeeps(s: State, esp: int, ebp: int)
    requires Inv(s)
    ensures var saved := Saved(s, esp, ebp);
            Inv(saved) && forall t :: 0 <= t < |s.stacks| && s.stacks[t] != [] ==> Last(saved.saved[t]).Some?
  {
    hide Tables, KernelStacks, Esp0;
  }

  lemma DispatchKeeps(s: State, next: nat, esp: int, ebp: int)
    requires Inv(s) && next < |s.stacks| && s.stacks[next] != []
    requires forall t :: 0 <= t < |s.stacks| && s.stacks[t] != [] ==> Last(s.saved[t]).Some?
    ensures Inv(Dispatch(s, next, esp, ebp))
  {
    TopIsProcess(s, next);
    hide Tables, KernelStacks, Esp0;
  }

  lemma TopIsProcess(s: State, t: nat)
    requires Inv(s) && t < |s.stacks| && s.stacks[t] != []
    ensures 1 <= Last(s.stacks[t]) < |s.pcbs|
  {
    LastLive(s.pcbs, s.stacks, t);
  }

  lemma RoundTrip(c: nat, n: nat)
    requires c < n
    ensures (c + n) % n == c
  {
    Arith.RemainderUnique(c + n, n, 1, c);
  }

  lemma {:induction false} FirstBusyFinds(stacks: seq<seq<int>>, c: nat, d: nat)
    requires c < |stacks| && stacks[c] != [] && d <= |stacks|
    ensures stacks[FirstBusy(stacks, c, d)] != []
    decreases |stacks| - d
  {
    if d == |stacks| {
      RoundTrip(c, d);
    } else if stacks[(c + d) % |stacks|] == [] {
      FirstBusyFinds(stacks, c, d + 1);
    }
  }

  lemma TickKeeps(s: State, esp: int, ebp: int)
    requires Inv(s)
    ensures Inv(Tick(s, esp, ebp))
  {
    hide Tables, KernelStacks, Esp0;
    SavedKeeps(s, esp, ebp);
    var saved := Saved(s, esp, ebp);
    FirstBusyFinds(s.stacks, s.currentProcess, 1);
    DispatchKeeps(saved, NextProcess(saved), esp, ebp);
  }

  /** The state in which the shell of a fresh terminal is executed. */
  function Opened(s: State, num: nat): State
    requires InTables(s) && num < |s.stacks|
  {
    var shown := ShowTerminal(s, num);
    shown.(video := Cleared(shown.video), currentPid := SENTINEL, currentProcess := num, waiting := false)
  }

  lemma OpenedReady(s: State, num: nat)
    requires Inv(s) && num < |s.stacks| && CanSwitch(s, num) && !Ignored(s, num) && !s.running[num]
    ensures Ready(Opened(s, num)) && !Full(Opened(s, num))
  {
    hide Tables, KernelStacks, Esp0, Cleared;
  }

  lemma SwitchKeeps(s: State, num: nat)
    requires Inv(s) && num < |s.stacks| && CanSwitch(s, num)
    ensures Creatable(s) && Inv(Switch(s, num))
  {
    hide Tables, KernelStacks, Esp0, Cleared, FirstFree;
    CountsLive(s.pcbs, s.stacks, s.active);
    CreatableTables(s);
    if !Ignored(s, num) && !s.running[num] {
      OpenedReady(s, num);
      ReadyExecute(Opened(s, num));
    }
  }

  lemma WriteKeeps(s: State, offset: nat, c: char)
    requires Inv(s)
    ensures Inv(Write(s, offset, c))
  {
    hide Tables, KernelStacks, Esp0;
  }

  // ---------- The guards are exact ----------

  lemma ExecuteExactly(s: State)
    requires Inv(s) && !s.waiting
    ensures Creatable(s) && (Inv(Execute(s)) <==> Full(s) || s.currentProcess == s.currentTerminal)
  {
    hide Tables, KernelStacks, Esp0, FirstFree, Flags, TopsSaved;
    CountsLive(s.pcbs, s.stacks, s.active);
    CreatableTables(s);
    if s.currentProcess == s.currentTerminal {
      ExecuteKeeps(s);
    } else if !Full(s) {
      RunningIsLive(s);
      FirstFreeIsFree(s.pcbs);
    }
  }

  lemma RunningIsLive(s: State)
    requires Inv(s)
    ensures 1 <= s.currentPid < |s.pcbs| && s.pcbs[s.currentPid].pid == s.currentPid
  {
    LastLive(s.pcbs, s.stacks, s.currentProcess);
  }

  lemma FirstFreeIsFree(pcbs: seq<Pcb>)
    requires 1 <= |pcbs|
    ensures 1 <= FirstFree(pcbs, 1) && (FirstFree(pcbs, 1) < |pcbs| ==> pcbs[FirstFree(pcbs, 1)].pid == FREE)
  {
  }

  lemma HaltExactly(s: State)
    requires Inv(s) && !s.waiting
    ensures s.stacks[s.currentProcess] != [] && 0 <= s.pcbs[s.currentPid].parent < |s.pcbs|
    ensures Creatable(Leave(s)) && (Inv(Halt(s)) <==> CanHalt(s))
  {
    hide Tables, KernelStacks, Esp0, FirstFree;
    LeaveKeeps(s);
    var left := Leave(s);
    CountsLive(left.pcbs, left.stacks, left.active);
    CreatableTables(left);
    if CanHalt(s) {
      HaltKeeps(s);
    } else {
      assert left.stacks[s.currentProcess] == [];
      var halted := Halt(s);
      assert halted.currentProcess == s.currentProcess && halted.stacks[s.currentProcess] == [];
    }
  }

  lemma SwitchExactly(s: State, num: nat)
    requires Inv(s) && num < |s.stacks|
    ensures Creatable(s) && (Inv(Switch(s, num)) <==> CanSwitch(s, num))
  {
    hide Tables, KernelStacks, Esp0, FirstFree;
    CountsLive(s.pcbs, s.stacks, s.active);
    CreatableTables(s);
    if CanSwitch(s, num) {
      SwitchKeeps(s, num);
    } else {
      var t, switched := s.currentProcess, Switch(s, num);
      assert t != num && switched.currentProcess == num;
      assert switched.stacks[t] == s.stacks[t] && switched.saved[t] == s.saved[t];
    }
  }

  /** Directly after a tick every switch is possible. */
  lemma TickAllowsSwitch(s: State, esp: int, ebp: int, num: nat)
    requires Inv(s) && num < |s.stacks|
    ensures Inv(Tick(s, esp, ebp)) && CanSwitch(Tick(s, esp, ebp), num)
  {
    hide Inv, Saved, FirstBusy, Ignored, Esp0;
    TickKeeps(s, esp, ebp);
    SavedKeeps(s, esp, ebp);
    TurnIsBusy(s, esp, ebp);
    InvSizes(Tick(s, esp, ebp));
  }

  lemma TurnIsBusy(s: State, esp: int, ebp: int)
    requires Inv(s)
    ensures InTables(s) && s.stacks[NextProcess(Saved(s, esp, ebp))] != []
  {
    hide Tables, KernelStacks, Flags, TopsSaved;
    FirstBusyFinds(s.stacks, s.currentProcess, 1);
  }

  lemma InvSizes(s: State)
    requires Inv(s)
    ensures InTables(s)
  {
    hide Tables, KernelStacks, Flags, TopsSaved, TopRuns;
  }

  // ---------- What the kernel's tables can rely on ----------

  /** There is room on every stack: even all processes together fit on each, for a stack has a place for
      every process block. */
  lemma StacksFit(pcbs: seq<Pcb>, stacks: seq<seq<int>>, active: int, t: nat)
    requires 1 <= |pcbs| && Tables(pcbs, stacks, active) && t < |stacks|
    ensures |stacks[t]| <= active <= |pcbs| - 1
  {
    hide EntriesLive, LiveEntered, EnteredOnce;
    RoomMeansFree(pcbs);
    TotalUpdate(stacks, t, []);
  }

  /** What it takes to execute a program: if there are not too many processes, a free block and a place on
      the stack. */
  ghost predicate HasRoom(s: State) {
    InTables(s) && Creatable(s) && (!Full(s) ==> |s.stacks[s.currentTerminal]| < |s.pcbs|)
  }

  lemma TablesHaveRoom(s: State)
    requires InTables(s) && Tables(s.pcbs, s.stacks, s.active)
    ensures HasRoom(s)
  {
    hide Tables, FirstFree;
    CountsLive(s.pcbs, s.stacks, s.active);
    CreatableTables(s);
    StacksFit(s.pcbs, s.stacks, s.active, s.currentTerminal);
  }

  /** Executing finds a free block and room on the stack whenever the count of processes allows it. */
  lemma ExecuteSafe(s: State)
    requires Ready(s) || (Inv(s) && CanExecute(s))
    ensures HasRoom(s)
    ensures !Full(s) ==> 1 <= FirstFree(s.pcbs, 1) && Inv(Execute(s))
    ensures Inv(s) ==> Inv(Execute(s))
  {
    hide Tables, KernelStacks, Esp0, TopsSaved, Flags, FirstFree;
    TablesHaveRoom(s);
    FirstFreeIsFree(s.pcbs);
    if Inv(s) && CanExecute(s) {
      ExecuteKeeps(s);
    } else if !Full(s) {
      ReadyExecute(s);
    }
  }

  /** Whoever runs, there is room for the base shell that takes the place of one that ended, and for that of
      a fresh terminal. */
  lemma LeaveHasRoom(s: State)
    requires Inv(s)
    ensures s.stacks[s.currentProcess] != [] && 0 <= s.pcbs[s.currentPid].parent < |s.pcbs| && HasRoom(Leave(s))
  {
    hide Tables, KernelStacks, Esp0, Leave, HasRoom, TopsSaved, Flags;
    LeaveKeeps(s);
    TablesHaveRoom(Leave(s));
  }

  lemma OpenedHasRoom(s: State, num: nat)
    requires Inv(s) && num < |s.stacks|
    ensures HasRoom(Opened(s, num))
  {
    hide Tables, KernelStacks, Esp0, Cleared, HasRoom, TopsSaved, Flags;
    TablesHaveRoom(Opened(s, num));
  }
}
