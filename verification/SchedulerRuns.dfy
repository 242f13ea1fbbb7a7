/** What holds over whole runs of the scheduler: its invariant, independent screens, fair turns, and
    contexts that come back as they were. */
module SchedulerRuns {
  import opened Scheduler
  import opened SchedulerInvariant
  import opened Wrappers

  datatype Event = Executes | Halts | Ticks(esp: int, ebp: int) | Switches(num: nat) | Writes(offset: nat, c: char)

  /** The guards of the steps. */
  ghost predicate Allowed(s: State, e: Event)
    requires Inv(s)
  {
    match e
    case Executes => CanExecute(s)
    case Halts => CanHalt(s)
    case Ticks(_, ebp) => ebp != 0
    case Switches(num) => num < |s.stacks| && CanSwitch(s, num)
    case Writes(_, _) => !s.waiting
  }

  /** What a step needs to know is in the invariant. */
  lemma StepDefined(s: State)
    requires Inv(s)
    ensures Creatable(s) && s.stacks[s.currentProcess] != [] && 0 <= s.pcbs[s.currentPid].parent < |s.pcbs|
        && Creatable(Leave(s))
    ensures !Full(Leave(s))
  {
    hide Tables, KernelStacks, Esp0;
    CountsLive(s.pcbs, s.stacks, s.active);
    CreatableTables(s);
    LeaveKeeps(s);
    var left := Leave(s);
    CountsLive(left.pcbs, left.stacks, left.active);
    CreatableTables(left);
  }

  ghost function Step(s: State, e: Event): (r: State)
    requires Inv(s) && Allowed(s, e)
  {
    StepDefined(s);
    match e
    case Executes => Execute(s)
    case Halts => Halt(s)
    case Ticks(esp, ebp) => Tick(s, esp, ebp)
    case Switches(num) => Switch(s, num)
    case Writes(offset, c) => Write(s, offset, c)
  }

  lemma StepKeeps(s: State, e: Event)
    requires Inv(s) && Allowed(s, e)
    ensures Inv(Step(s, e)) && |Step(s, e).stacks| == |s.stacks|
  {
    hide Inv;
    match e
    case Executes => ExecuteKeeps(s);
    case Halts => HaltKeeps(s);
    case Ticks(esp, ebp) => TickKeeps(s, esp, ebp);
    case Switches(num) => SwitchKeeps(s, num);
    case Writes(offset, c) => WriteKeeps(s, offset, c);
  }

  /** A step together with what it keeps. */
  ghost function Next(s: State, e: Event): (r: State)
    requires Inv(s) && Allowed(s, e)
    ensures Inv(r) && |r.stacks| == |s.stacks|
  {
    StepKeeps(s, e);
    Step(s, e)
  }

  ghost predicate Legal(s: State, es: seq<Event>)
    requires Inv(s)
    decreases |es|
  {
    es == [] || (Allowed(s, es[0]) && Legal(Next(s, es[0]), es[1..]))
  }

  /** Whatever legal steps follow, the tables stay consistent. */
  ghost function After(s: State, es: seq<Event>): (r: State)
    requires Inv(s) && Legal(s, es)
    ensures Inv(r) && |r.stacks| == |s.stacks|
    decreases |es|
  {
    if es == [] then s else After(Next(s, es[0]), es[1..])
  }

  // ---------- Safety ----------

  /** The tables as they are cleared at startup. */
  function Blank(terminals: nat, blocks: nat, cpu: Context, bootStack: int, video: Page, backing: seq<Page>): State
    requires 0 < terminals == |backing| && 2 <= blocks
  {
    State(seq(blocks, i => if i == SENTINEL then Pcb(SENTINEL, SENTINEL, bootStack) else Pcb(FREE, 0, 0)), 0, SENTINEL,
          seq(terminals, _ => []), seq(terminals, _ => []), seq(terminals, _ => false),
          0, 0, NO_REQUEST, false, cpu, video, backing, Video)
  }

  lemma {:induction false} NoneEntered(stacks: seq<seq<int>>)
    requires forall t :: 0 <= t < |stacks| ==> stacks[t] == []
    ensures Total(stacks) == 0
  {
    if stacks != [] {
      NoneEntered(stacks[..|stacks| - 1]);
    }
  }

  lemma BlankReady(terminals: nat, blocks: nat, cpu: Context, bootStack: int, video: Page, backing: seq<Page>)
    requires 0 < terminals == |backing| && 2 <= blocks
    ensures var blank := Blank(terminals, blocks, cpu, bootStack, video, backing);
            Ready(blank) && !Full(blank)
  {
    var blank := Blank(terminals, blocks, cpu, bootStack, video, backing);
    NoneEntered(blank.stacks);
    assert LivePids(blank.pcbs) == {};
    assert Tables(blank.pcbs, blank.stacks, 0);
    hide Tables, Esp0;
  }

  /** Booting: the first shell is executed on terminal 0. */
  lemma BootKeeps(terminals: nat, blocks: nat, cpu: Context, bootStack: int, video: Page, backing: seq<Page>)
    requires 0 < terminals == |backing| && 2 <= blocks
    ensures var blank := Blank(terminals, blocks, cpu, bootStack, video, backing);
            InTables(blank) && Creatable(blank) && Inv(Execute(blank))
  {
    var blank := Blank(terminals, blocks, cpu, bootStack, video, backing);
    hide Tables;
    BlankReady(terminals, blocks, cpu, bootStack, video, backing);
    ReadyExecute(blank);
  }

  /** As long as there is room, a tick and a switch start the shell of a fresh terminal beside all others. */
  lemma FreshTerminalOpens(s: State, esp: int, ebp: int, num: nat)
    requires Inv(s) && !s.waiting && ebp != 0 && num < |s.stacks| && s.stacks[num] == [] && s.active < |s.pcbs| - 1
    ensures Allowed(s, Ticks(esp, ebp)) && Allowed(Next(s, Ticks(esp, ebp)), Switches(num))
    ensures var r := Next(Next(s, Ticks(esp, ebp)), Switches(num));
            && Inv(r) && r.currentTerminal == r.currentProcess == num
            && |r.stacks[num]| == 1 && forall t :: 0 <= t < |s.stacks| && t != num ==> r.stacks[t] == s.stacks[t]
  {
    hide Tables, KernelStacks, Esp0, FirstFree, NextProcess;
    TickAllowsSwitch(s, esp, ebp, num);
  }

  // ---------- Independent screens ----------

  /** The screen of a terminal: the page on display, or its backing page. */
  function Screen(s: State, t: nat): Page
    requires InTables(s) && t < |s.stacks|
  {
    if t == s.currentTerminal then s.video else s.backing[t]
  }

  /** What a step does to the screen of terminal `t` as an isolated screen: only a write by its own
      process, and opening it, change it. */
  ghost function ScreenStep(page: Page, s: State, e: Event, t: nat): Page
    requires Inv(s) && Allowed(s, e) && t < |s.stacks|
  {
    match e
    case Writes(offset, c) => if t == s.currentProcess && offset < |page| then page[offset := c] else page
    case Switches(num) => if num == t && !Ignored(s, num) && !s.running[num] then Cleared(page) else page
    case _ => page
  }

  lemma ScreensIndependent(s: State, e: Event, t: nat)
    requires Inv(s) && Allowed(s, e) && t < |s.stacks|
    ensures Screen(Next(s, e), t) == ScreenStep(Screen(s, t), s, e, t)
  {
    StepDefined(s);
    InvTables(s);
    hide Inv, Creatable, Leave, Execute, Tick, Switch, Write, Halt;
    match e
    case Executes => ExecutePages(s);
    case Halts => HaltPages(s);
    case Ticks(esp, ebp) => TickPages(s, esp, ebp);
    case Switches(num) => SwitchScreens(s, num, t);
    case Writes(offset, c) => WriteScreens(s, offset, c, t);
  }

  lemma InvTables(s: State)
    requires Inv(s)
    ensures InTables(s) && (!s.waiting ==> s.mapped == ScreenPage(s, s.currentProcess))
    ensures s.mapped.Backing? ==> 0 <= s.mapped.terminal < |s.stacks|
  {
  }

  ghost predicate SamePages(s: State, r: State) {
    r.video == s.video && r.backing == s.backing && r.currentTerminal == s.currentTerminal && |r.stacks| == |s.stacks|
  }

  lemma ExecutePages(s: State)
    requires InTables(s) && Creatable(s)
    ensures SamePages(s, Execute(s))
  {
  }

  lemma HaltPages(s: State)
    requires InTables(s) && s.stacks[s.currentProcess] != []
    requires 0 <= s.pcbs[s.currentPid].parent < |s.pcbs| && Creatable(Leave(s))
    ensures SamePages(s, Halt(s))
  {
    hide Execute;
    if Leave(s).currentPid == SENTINEL {
      ExecutePages(Leave(s));
    }
  }

  lemma TickPages(s: State, esp: int, ebp: int)
    requires InTables(s)
    ensures SamePages(s, Tick(s, esp, ebp))
  {
    hide NextProcess;
    assert SamePages(s, Saved(s, esp, ebp));
    DispatchPages(Saved(s, esp, ebp), NextProcess(Saved(s, esp, ebp)), esp, ebp);
  }

  lemma DispatchPages(s: State, next: nat, esp: int, ebp: int)
    requires InTables(s) && next < |s.stacks|
    ensures SamePages(s, Dispatch(s, next, esp, ebp))
  {
  }

  lemma WriteScreens(s: State, offset: nat, c: char, t: nat)
    requires InTables(s) && t < |s.stacks| && s.mapped == ScreenPage(s, s.currentProcess)
    ensures InTables(Write(s, offset, c))
    ensures Screen(Write(s, offset, c), t)
         == if t == s.currentProcess && offset < |Screen(s, t)| then Screen(s, t)[offset := c] else Screen(s, t)
  {
  }

  lemma SwitchScreens(s: State, num: nat, t: nat)
    requires Inv(s) && Creatable(s) && num < |s.stacks| && t < |s.stacks|
    ensures InTables(Switch(s, num))
    ensures Screen(Switch(s, num), t)
         == if num == t && !Ignored(s, num) && !s.running[num] then Cleared(Screen(s, t)) else Screen(s, t)
  {
    hide Tables, KernelStacks, Esp0, Cleared, TopsSaved;
  }

  /** The screen of one terminal over a run, by its own edits alone. */
  ghost function ScreenAfter(page: Page, s: State, es: seq<Event>, t: nat): Page
    requires Inv(s) && Legal(s, es) && t < |s.stacks|
    decreases |es|
  {
    if es == [] then page else ScreenAfter(ScreenStep(page, s, es[0], t), Next(s, es[0]), es[1..], t)
  }

  /** Over every run, each terminal's screen is what its own processes made of it, wherever it is kept
      and however often the display changed. */
  lemma {:induction false} ScreensOverRuns(s: State, es: seq<Event>, t: nat)
    requires Inv(s) && Legal(s, es) && t < |s.stacks|
    ensures Inv(After(s, es)) && |After(s, es).stacks| == |s.stacks|
    ensures Screen(After(s, es), t) == ScreenAfter(Screen(s, t), s, es, t)
    decreases |es|
  {
    hide Next, Allowed, ScreenStep, Tables, TopsSaved, TopRuns, Flags;
    if es != [] {
      ScreensIndependent(s, es[0], t);
      ScreensOverRuns(Next(s, es[0]), es[1..], t);
    }
  }

  // ---------- Contexts come back as they were ----------

  /** Terminal `t` does not run before the end of the run. */
  ghost predicate Away(s: State, es: seq<Event>, t: nat)
    requires Inv(s) && Legal(s, es)
    decreases |es|
  {
    s.currentProcess != t && (es == [] || Away(Next(s, es[0]), es[1..], t))
  }

  /** The processor as it was when the top process of `t` was saved last, but for the kernel stack,
      which is the one of its pid. */
  ghost function Restored(s: State, t: nat): Context
    requires InTables(s) && t < |s.stacks| && s.stacks[t] != [] && Last(s.saved[t]).Some?
  {
    var context := Last(s.saved[t]).value;
    context.(tss := context.tss.(esp0 := Esp0(Last(s.stacks[t]))))
  }

  /** The step leaves the stack of `t` and what is saved for it as they were. */
  ghost predicate Untouched(s: State, r: State, t: nat) {
    && t < |s.stacks| && t < |s.saved| && t < |r.stacks| && t < |r.saved|
    && r.stacks[t] == s.stacks[t] && r.saved[t] == s.saved[t]
  }

  /** A step of one terminal leaves the others' stacks alone, and only the timer changes over to one. */
  lemma OthersUntouched(s: State, e: Event, t: nat)
    requires Inv(s) && Allowed(s, e) && t < |s.stacks| && t != s.currentProcess && s.stacks[t] != []
    ensures Untouched(s, Next(s, e), t) && Last(s.saved[t]).Some?
    ensures var r := Next(s, e);
            r.currentProcess == t ==> e.Ticks? && r.currentPid == Last(s.stacks[t]) && r.cpu == Restored(s, t)
  {
    StepDefined(s);
    WaitingIsSaved(s, t);
    hide Inv, Creatable, Leave, Execute, Tick, Switch, Write, Halt;
    match e
    case Executes => ExecuteUntouched(s, t);
    case Halts => HaltUntouched(s, t);
    case Ticks(esp, ebp) => TickUntouched(s, esp, ebp, t);
    case Switches(num) => SwitchUntouched(s, num, t);
    case Writes(offset, c) => WriteUntouched(s, offset, c, t);
  }

  lemma WaitingIsSaved(s: State, t: nat)
    requires Inv(s) && t < |s.stacks| && t != s.currentProcess && s.stacks[t] != []
    ensures InTables(s) && s.stacks[s.currentProcess] != [] && Last(s.saved[t]).Some? && s.running[t]
    ensures s.mapped.Backing? ==> 0 <= s.mapped.terminal < |s.stacks|
    ensures |s.stacks[s.currentProcess]| == 1 <==> s.pcbs[s.currentPid].parent == SENTINEL
  {
    hide Tables, KernelStacks, Esp0;
    ParentOfRunning(s);
  }

  lemma ExecuteUntouched(s: State, t: nat)
    requires InTables(s) && Creatable(s) && t < |s.stacks| && t != s.currentTerminal
    ensures Untouched(s, Execute(s), t) && Execute(s).currentProcess == s.currentProcess
  {
  }

  lemma HaltUntouched(s: State, t: nat)
    requires InTables(s) && s.stacks[s.currentProcess] != [] && t < |s.stacks| && t != s.currentProcess
    requires 0 <= s.pcbs[s.currentPid].parent < |s.pcbs| && Creatable(Leave(s))
    requires s.pcbs[s.currentPid].parent == SENTINEL ==> t != s.currentTerminal
    ensures Untouched(s, Halt(s), t) && Halt(s).currentProcess == s.currentProcess
  {
    hide Execute;
    if Leave(s).currentPid == SENTINEL {
      ExecuteUntouched(Leave(s), t);
    }
  }

  lemma TickUntouched(s: State, esp: int, ebp: int, t: nat)
    requires InTables(s) && t < |s.stacks| && t != s.currentProcess && s.stacks[t] != [] && Last(s.saved[t]).Some?
    ensures var r := Tick(s, esp, ebp);
            && Untouched(s, r, t)
            && (r.currentProcess == t ==> r.currentPid == Last(s.stacks[t]) && r.cpu == Restored(s, t))
  {
    hide NextProcess, Esp0;
    var saved := Saved(s, esp, ebp);
    assert saved.saved[t] == s.saved[t];
    assert Untouched(saved, Dispatch(saved, NextProcess(saved), esp, ebp), t);
  }

  lemma SwitchUntouched(s: State, num: nat, t: nat)
    requires InTables(s) && Creatable(s) && num < |s.stacks| && t < |s.stacks| && t != s.currentProcess && s.running[t]
    ensures Untouched(s, Switch(s, num), t) && Switch(s, num).currentProcess != t
  {
    hide Cleared, Esp0;
  }

  lemma WriteUntouched(s: State, offset: nat, c: char, t: nat)
    requires InTables(s) && (s.mapped.Backing? ==> 0 <= s.mapped.terminal < |s.backing|) && t < |s.stacks|
    ensures Untouched(s, Write(s, offset, c), t) && Write(s, offset, c).currentProcess == s.currentProcess
  {
  }

  /** While a terminal is away nothing happens to it, and what brings it back is a timer interrupt that
      restores exactly what was saved. */
  lemma {:induction false} ComesBack(s: State, es: seq<Event>, e: Event, t: nat)
    requires Inv(s) && t < |s.stacks| && s.stacks[t] != []
    requires Legal(s, es) && Away(s, es, t) && Allowed(After(s, es), e)
    requires Next(After(s, es), e).currentProcess == t
    ensures Last(s.saved[t]).Some? && e.Ticks?
    ensures var r := Next(After(s, es), e);
            Untouched(s, r, t) && r.currentPid == Last(s.stacks[t]) && r.cpu == Restored(s, t)
    decreases |es|
  {
    hide Inv, Next, Allowed, Restored;
    if es == [] {
      OthersUntouched(s, e, t);
    } else {
      OthersUntouched(s, es[0], t);
      ComesBack(Next(s, es[0]), es[1..], e, t);
      SameRestored(s, Next(s, es[0]), t);
    }
  }

  lemma SameRestored(s: State, r: State, t: nat)
    requires Inv(s) && Inv(r) && Untouched(s, r, t) && s.stacks[t] != [] && Last(s.saved[t]).Some?
    ensures Restored(r, t) == Restored(s, t)
  {
    hide Tables, KernelStacks, Esp0;
  }

  /** A process that a timer interrupt takes the processor from gets it back as it was: the same stack
      and base pointer, and the same TSS, whatever the other terminals did meanwhile. */
  lemma PreemptedResumes(s: State, esp: int, ebp: int, es: seq<Event>, e: Event)
    requires Inv(s) && Allowed(s, Ticks(esp, ebp))
    requires var t, after := s.currentProcess, Next(s, Ticks(esp, ebp));
             Legal(after, es) && Away(after, es, t) && Allowed(After(after, es), e)
               && Next(After(after, es), e).currentProcess == t
    ensures var r := Next(After(Next(s, Ticks(esp, ebp)), es), e);
            && e.Ticks? && r.currentPid == s.currentPid && r.stacks[s.currentProcess] == s.stacks[s.currentProcess]
            && r.cpu == Context(esp, ebp, s.cpu.tss)
  {
    var t, after := s.currentProcess, Next(s, Ticks(esp, ebp));
    Preempted(s, esp, ebp);
    hide Inv, Next, Allowed, Tick, Away;
    ComesBack(after, es, e, t);
  }

  /** With no other terminal to turn to, it goes on at once. */
  lemma ResumesAtOnce(s: State, esp: int, ebp: int)
    requires Inv(s) && Tick(s, esp, ebp).currentProcess == s.currentProcess
    ensures Tick(s, esp, ebp).cpu == Context(esp, ebp, s.cpu.tss) && Tick(s, esp, ebp).currentPid == s.currentPid
  {
    hide Tables, KernelStacks, NextProcess, Esp0;
  }

  lemma Preempted(s: State, esp: int, ebp: int)
    requires Inv(s)
    ensures var r, t := Tick(s, esp, ebp), s.currentProcess;
            && r.stacks == s.stacks && |r.saved| == |s.saved| && s.stacks[t] != [] && s.currentPid == Last(s.stacks[t])
            && r.saved[t] != [] && Last(r.saved[t]) == Some(Context(esp, ebp, s.cpu.tss))
            && s.cpu.tss.esp0 == Esp0(s.currentPid)
  {
    hide Tables, KernelStacks, NextProcess;
  }
}
