/** Processes and terminals: each terminal has a stack of processes, of which the top one can run, and
    a timer interrupt goes round the terminals. The steps here are functions on values; the number of
    terminals and of process blocks are those of the tables. */
module Scheduler {
  import opened Wrappers

  /** The TSS: the kernel stack of the process, and everything else. */
  datatype Tss = Tss(esp0: int, rest: int)

  /** What a timer interrupt saves and restores. */
  datatype Context = Context(esp: int, ebp: int, tss: Tss)

  datatype Pcb = Pcb(pid: int, parent: int, esp: int)

  type Page = seq<char>

  datatype Mapping = Video | Backing(terminal: int)

  const SENTINEL := 0
  const NO_REQUEST := -1
  const FREE := -1

  /** `saved` holds, for each entry of the stacks, what was saved for it last: nothing as long as its
      saved base pointer is 0. `video` is the page on display, and `backing` the pages of the terminals
      in the background; `mapped` is the one that user programs write to. The running process is
      `waiting` while it sits in the keyboard interrupt until a requested terminal gets its turn. */
  datatype State = State(
    pcbs: seq<Pcb>, active: int, currentPid: int,
    stacks: seq<seq<int>>, saved: seq<seq<Option<Context>>>, running: seq<bool>,
    currentProcess: int, currentTerminal: int, request: int, waiting: bool, cpu: Context,
    video: Page, backing: seq<Page>, mapped: Mapping)

  /** The kernel stack of a process: one 32 KB slice below the end of the kernel for each pid. */
  function Esp0(pid: int): int {
    0x400000 + (0x400000 - 0xF) - 2 * 0x4000 * pid
  }

  // ---------- Process blocks ----------

  /** The first free block from `i` on, or the number of blocks. */
  function FirstFree(pcbs: seq<Pcb>, i: nat): (p: nat)
    requires i <= |pcbs|
    ensures i <= p <= |pcbs|
    ensures p < |pcbs| ==> pcbs[p].pid == FREE
    ensures forall q :: i <= q < p ==> pcbs[q].pid != FREE
    decreases |pcbs| - i
  {
    if i == |pcbs| || pcbs[i].pid == FREE then i else FirstFree(pcbs, i + 1)
  }

  // ---------- Steps ----------

  predicate InTables(s: State) {
    && 0 < |s.stacks| == |s.saved| == |s.running| == |s.backing|
    && 2 <= |s.pcbs|
    && 0 <= s.currentProcess < |s.stacks| && 0 <= s.currentTerminal < |s.stacks|
    && 0 <= s.currentPid < |s.pcbs|
    && (s.request == NO_REQUEST || 0 <= s.request < |s.stacks|)
    && forall t :: 0 <= t < |s.stacks| ==> |s.saved[t]| == |s.stacks[t]|
  }

  predicate Full(s: State) {
    s.active >= |s.pcbs| - 1
  }

  /** Whenever the count of processes says that there is room, there is a free block. */
  ghost predicate Creatable(s: State) {
    !Full(s) ==> 1 <= |s.pcbs| && FirstFree(s.pcbs, 1) < |s.pcbs|
  }

  /** A new process, on top of the foreground terminal's stack. */
  function Execute(s: State): (r: State)
    requires InTables(s) && Creatable(s)
    ensures |r.stacks| == |s.stacks| && |r.pcbs| == |s.pcbs|
  {
    if Full(s) then s
    else
      var pid := FirstFree(s.pcbs, 1);
      var t := s.currentTerminal;
      s.(pcbs := s.pcbs[pid := Pcb(pid, s.currentPid, Esp0(pid))], active := s.active + 1, currentPid := pid,
         cpu := s.cpu.(tss := s.cpu.tss.(esp0 := Esp0(pid))),
         running := s.running[t := true],
         stacks := s.stacks[t := s.stacks[t] + [pid]], saved := s.saved[t := s.saved[t] + [None]],
         mapped := Video)
  }

  function Pop<T>(a: seq<T>): seq<T>
    requires a != []
  {
    a[..|a| - 1]
  }

  function Last<T>(a: seq<T>): T
    requires a != []
  {
    a[|a| - 1]
  }

  /** The running process ends, and its parent goes on. */
  function Leave(s: State): (r: State)
    requires InTables(s) && s.stacks[s.currentProcess] != []
    requires 0 <= s.pcbs[s.currentPid].parent < |s.pcbs|
    ensures |r.stacks| == |s.stacks| && |r.pcbs| == |s.pcbs|
  {
    var parent := s.pcbs[s.currentPid].parent;
    var pcbs := s.pcbs[s.currentPid := s.pcbs[s.currentPid].(pid := FREE)];
    var t := s.currentProcess;
    s.(pcbs := pcbs, active := s.active - 1, currentPid := parent,
       cpu := s.cpu.(tss := s.cpu.tss.(esp0 := pcbs[parent].esp)),
       stacks := s.stacks[t := Pop(s.stacks[t])], saved := s.saved[t := Pop(s.saved[t])])
  }

  /** A base shell that ends is started anew. */
  function Halt(s: State): (r: State)
    requires InTables(s) && s.stacks[s.currentProcess] != []
    requires 0 <= s.pcbs[s.currentPid].parent < |s.pcbs| && Creatable(Leave(s))
  {
    var left := Leave(s);
    if left.currentPid == SENTINEL then Execute(left) else left
  }

  /** The first terminal with processes among those `d`, `d + 1`, ... places after `c`. */
  function FirstBusy<T>(stacks: seq<seq<T>>, c: nat, d: nat): (next: nat)
    requires c < |stacks| && d <= |stacks|
    ensures next < |stacks|
    decreases |stacks| - d
  {
    var next := (c + d) % |stacks|;
    if d == |stacks| || stacks[next] != [] then next else FirstBusy(stacks, c, d + 1)
  }

  function ScreenPage(s: State, t: int): Mapping {
    if t == s.currentTerminal then Video else Backing(t)
  }

  function Saved(s: State, esp: int, ebp: int): (r: State)
    requires InTables(s)
    ensures InTables(r) && r.stacks == s.stacks
  {
    var t := s.currentProcess;
    if s.stacks[t] == [] then s
    else s.(saved := s.saved[t := s.saved[t][|s.saved[t]| - 1 := Some(Context(esp, ebp, s.cpu.tss))]])
  }

  function NextProcess(s: State): (next: nat)
    requires InTables(s)
    ensures next < |s.stacks|
  {
    if s.request == NO_REQUEST then FirstBusy(s.stacks, s.currentProcess, 1) else s.request
  }

  /** Goes on with a terminal's top process, if anything was ever saved for it. */
  function Dispatch(s: State, next: nat, esp: int, ebp: int): State
    requires InTables(s) && next < |s.stacks|
  {
    var chosen := s.(currentProcess := next, request := NO_REQUEST, waiting := false,
        cpu := Context(esp, ebp, s.cpu.tss));
    if s.stacks[next] == [] || Last(s.saved[next]) == None then chosen
    else
      var pid, context := Last(s.stacks[next]), Last(s.saved[next]).value;
      chosen.(currentPid := pid, cpu := context.(tss := context.tss.(esp0 := Esp0(pid))), mapped := ScreenPage(s, next))
  }

  /** A timer interrupt that finds the processor with this stack and base pointer. */
  function Tick(s: State, esp: int, ebp: int): State
    requires InTables(s)
  {
    var saved := Saved(s, esp, ebp);
    Dispatch(saved, NextProcess(saved), esp, ebp)
  }

  /** The display after a change of terminals: the one shown goes to its backing page, and the other
      comes from its own. */
  function ShowTerminal(s: State, num: nat): (r: State)
    requires InTables(s) && num < |s.stacks|
    ensures InTables(r)
  {
    var backing := s.backing[s.currentTerminal := s.video];
    s.(backing := backing, video := backing[num], currentTerminal := num)
  }

  predicate Ignored(s: State, num: nat)
    requires InTables(s) && num < |s.stacks|
  {
    num == s.currentTerminal || (Full(s) && !s.running[num])
  }

  function Cleared(page: Page): (r: Page)
    ensures |r| == |page|
  {
    seq(|page|, i requires 0 <= i < |page| =>
      if i >= 2 * 25 * 80 then page[i] else if i % 2 == 0 then ' ' else 7 as char)
  }

  /** The user asks for another terminal. */
  function Switch(s: State, num: nat): State
    requires InTables(s) && num < |s.stacks| && Creatable(s)
  {
    if Ignored(s, num) then s
    else
      var shown := ShowTerminal(s, num);
      if s.running[num] then shown.(request := num, waiting := true)
      else Execute(shown.(video := Cleared(shown.video), currentPid := SENTINEL, currentProcess := num,
                          waiting := false))
  }

  /** A user program writes to the screen page that is mapped for it. */
  function Write(s: State, offset: nat, c: char): (r: State)
    requires InTables(s) && (s.mapped.Backing? ==> 0 <= s.mapped.terminal < |s.backing|)
  {
    match s.mapped
    case Video => if offset < |s.video| then s.(video := s.video[offset := c]) else s
    case Backing(t) => if offset < |s.backing[t]| then s.(backing := s.backing[t := s.backing[t][offset := c]]) else s
  }
}
