/** The scheduler as the kernel keeps it: fixed tables that system calls and interrupts update in place. */
module Kernel {
  import opened Arith
  import Memory
  import opened Scheduler
  import opened SchedulerInvariant
  import opened SchedulerLaws
  import opened SchedulerRuns
  import opened Wrappers

  const PAGE: nat := 0x1000

  /** A row of a table, as far as it is filled. */
  ghost function Row(table: array2<int>, t: nat, n: nat): (r: seq<int>)
    requires t < table.Length0 && n <= table.Length1
    reads table
    ensures |r| == n && forall i :: 0 <= i < n ==> r[i] == table[t, i]
  {
    seq(n, i requires 0 <= i < n reads table => table[t, i])
  }

  /** What a process had in the processor, if a base pointer other than 0 was saved for it. */
  function SavedContext(esp: int, ebp: int, tss: Tss): Option<Context> {
    if ebp == 0 then None else Some(Context(esp, ebp, tss))
  }

  ghost function SavedRow(esp: array2<int>, ebp: array2<int>, tss: array2<Tss>, t: nat,
      n: nat): (r: seq<Option<Context>>)
    requires t < esp.Length0 && n <= esp.Length1
    requires t < ebp.Length0 && n <= ebp.Length1
    requires t < tss.Length0 && n <= tss.Length1
    reads esp, ebp, tss
    ensures |r| == n && forall i :: 0 <= i < n ==> r[i] == SavedContext(esp[t, i], ebp[t, i], tss[t, i])
  {
    seq(n, i requires 0 <= i < n reads esp, ebp, tss => SavedContext(esp[t, i], ebp[t, i], tss[t, i]))
  }

  class Kernel {
    const terminals: nat
    const blocks: nat
    const controlBlocks: array<Pcb>
    const scheduleTop: array<int>
    const scheduleStack: array2<int>
    const scheduleEsp: array2<int>
    const scheduleEbp: array2<int>
    const scheduleTss: array2<Tss>
    const terminalRunning: array<bool>
    /** The page on display, and behind it a backing page for each terminal. */
    const vram: array<char>

    var numActive: int
    var currentPid: int
    var currentProcess: int
    var currentTerminal: int
    var terminalRequest: int
    var lastEsp: int
    var lastEbp: int
    var tss: Tss
    /** The page that user programs see as screen memory. */
    var mappedPage: nat
    ghost var waiting: bool

    ghost predicate Sizes() {
      && 0 < terminals && 2 <= blocks
      && controlBlocks.Length == blocks && scheduleTop.Length == terminals && terminalRunning.Length == terminals
      && scheduleStack.Length0 == scheduleEsp.Length0 == scheduleEbp.Length0 == scheduleTss.Length0 == terminals
      && scheduleStack.Length1 == scheduleEsp.Length1 == scheduleEbp.Length1 == scheduleTss.Length1 == blocks
      && scheduleStack != scheduleEsp && scheduleStack != scheduleEbp && scheduleEsp != scheduleEbp
      && vram.Length == (terminals + 1) * PAGE
    }

    /** Every stack is within its table, and what is above its top was cleared. */
    ghost predicate Shape()
      reads scheduleTop, scheduleEbp
    {
      && Sizes()
      && (forall t :: 0 <= t < terminals ==> 0 <= scheduleTop[t] <= blocks)
      && (forall t, i :: 0 <= t < terminals && scheduleTop[t] <= i < blocks ==> scheduleEbp[t, i] == 0)
    }

    ghost function Stack(t: nat): (r: seq<int>)
      requires Shape() && t < terminals
      reads scheduleTop, scheduleEbp, scheduleStack
    {
      Row(scheduleStack, t, scheduleTop[t])
    }

    ghost function SavedOf(t: nat): (r: seq<Option<Context>>)
      requires Shape() && t < terminals
      reads scheduleTop, scheduleEbp, scheduleEsp, scheduleTss
    {
      SavedRow(scheduleEsp, scheduleEbp, scheduleTss, t, scheduleTop[t])
    }

    ghost function PageAt(p: nat): (r: Page)
      requires Sizes() && p <= terminals
      reads vram
    {
      assert (p + 1) * PAGE <= (terminals + 1) * PAGE;
      vram[p * PAGE..(p + 1) * PAGE]
    }

    ghost function Stacks(): (r: seq<seq<int>>)
      requires Shape()
      reads scheduleTop, scheduleEbp, scheduleStack
      ensures |r| == terminals && forall t :: 0 <= t < terminals ==> r[t] == Stack(t)
    {
      seq(terminals, t requires 0 <= t < terminals && Shape() reads scheduleTop, scheduleEbp, scheduleStack => Stack(t))
    }

    ghost function SavedTable(): (r: seq<seq<Option<Context>>>)
      requires Shape()
      reads scheduleTop, scheduleEbp, scheduleEsp, scheduleTss
      ensures |r| == terminals && forall t :: 0 <= t < terminals ==> r[t] == SavedOf(t)
    {
      seq(terminals, t requires 0 <= t < terminals && Shape()
          reads scheduleTop, scheduleEbp, scheduleEsp, scheduleTss => SavedOf(t))
    }

    ghost function BackingPages(): (r: seq<Page>)
      requires Sizes()
      reads vram
      ensures |r| == terminals && forall t :: 0 <= t < terminals ==> r[t] == PageAt(t + 1)
    {
      seq(terminals, t requires 0 <= t < terminals reads vram => PageAt(t + 1))
    }

    /** The tables as a value. */
    ghost function View(): (s: State)
      requires Shape()
      reads this, controlBlocks, scheduleTop, scheduleStack, scheduleEsp, scheduleEbp, scheduleTss, terminalRunning,
          vram
    {
      State(controlBlocks[..], numActive, currentPid, Stacks(), SavedTable(), terminalRunning[..],
            currentProcess, currentTerminal, terminalRequest, waiting, Context(lastEsp, lastEbp, tss),
            PageAt(0), BackingPages(), if mappedPage == 0 then Video else Backing(mappedPage - 1))
    }

    ghost predicate Valid()
      reads this, controlBlocks, scheduleTop, scheduleStack, scheduleEsp, scheduleEbp, scheduleTss, terminalRunning,
          vram
    {
      Shape() && Inv(View())
    }

    /** Takes the first free block, or fails. */
    method CreateNewPcb(parent: int) returns (pid: int)
      requires Sizes()
      modifies this`numActive, controlBlocks
      ensures var free := FirstFree(old(controlBlocks[..]), 1);
              if free == blocks then pid == -1 && controlBlocks[..] == old(controlBlocks[..])
                && numActive == old(numActive)
              else pid == free && numActive == old(numActive) + 1
                   && controlBlocks[..]
                      == old(controlBlocks[..])[free := Pcb(free, parent, old(controlBlocks[free].esp))]
    {
      var i := 1;
      while i < blocks && controlBlocks[i].pid != FREE
        invariant 1 <= i <= blocks && FirstFree(controlBlocks[..], 1) == FirstFree(controlBlocks[..], i)
      {
        i := i + 1;
      }
      if i == blocks {
        return -1;
      }
      controlBlocks[i] := controlBlocks[i].(pid := i, parent := parent);
      numActive := numActive + 1;
      return i;
    }

    method DestroyPcb(pid: int)
      requires Sizes() && 0 <= pid < blocks
      modifies this`numActive, controlBlocks
      ensures controlBlocks[..] == old(controlBlocks[..])[pid := old(controlBlocks[pid]).(pid := FREE)]
      ensures numActive == old(numActive) - 1
    {
      controlBlocks[pid] := controlBlocks[pid].(pid := FREE);
      numActive := numActive - 1;
    }

    /** Puts the current process on top of the stack of the terminal on display. */
    method Schedule()
      requires Shape() && 0 <= currentTerminal < terminals && scheduleTop[currentTerminal] < blocks
      modifies scheduleTop, scheduleStack
      ensures Shape()
      ensures Stacks() == old(Stacks())[currentTerminal := old(Stack(currentTerminal)) + [currentPid]]
      ensures SavedTable() == old(SavedTable())[currentTerminal := old(SavedOf(currentTerminal)) + [None]]
    {
      hide PageAt;
      scheduleTop[currentTerminal] := scheduleTop[currentTerminal] + 1;
      var top := scheduleTop[currentTerminal] - 1;
      scheduleStack[currentTerminal, top] := currentPid;
      assert forall t :: 0 <= t < terminals && t != currentTerminal ==>
        Stack(t) == old(Stack(t)) && SavedOf(t) == old(SavedOf(t));
      assert Stack(currentTerminal) == old(Stack(currentTerminal)) + [currentPid];
      assert SavedOf(currentTerminal) == old(SavedOf(currentTerminal)) + [None];
    }

    /** Takes the top off the stack of the running terminal and clears its place. */
    method Deschedule()
      requires Shape() && 0 <= currentProcess < terminals && 0 < scheduleTop[currentProcess]
      modifies scheduleTop, scheduleStack, scheduleEsp, scheduleEbp
      ensures Shape()
      ensures Stacks() == old(Stacks())[currentProcess := Pop(old(Stack(currentProcess)))]
      ensures SavedTable() == old(SavedTable())[currentProcess := Pop(old(SavedOf(currentProcess)))]
    {
      hide PageAt;
      var top := scheduleTop[currentProcess] - 1;
      scheduleStack[currentProcess, top] := 0;
      scheduleEbp[currentProcess, top] := 0;
      scheduleEsp[currentProcess, top] := 0;
      scheduleTop[currentProcess] := scheduleTop[currentProcess] - 1;
      assert forall t :: 0 <= t < terminals && t != currentProcess ==>
        Stack(t) == old(Stack(t)) && SavedOf(t) == old(SavedOf(t));
      assert Stack(currentProcess) == Pop(old(Stack(currentProcess)));
      assert SavedOf(currentProcess) == Pop(old(SavedOf(currentProcess)));
    }

    /** Copies a page of screen memory. */
    method CopyPage(to: nat, from: nat)
      requires Sizes() && to <= terminals && from <= terminals && to != from
      modifies vram
      ensures PageAt(to) == old(PageAt(from))
      ensures forall p :: 0 <= p <= terminals && p != to ==> PageAt(p) == old(PageAt(p))
    {
      PagesApart(to, from, terminals);
      ghost var was := vram[..];
      Memory.Memcpy(vram, to * PAGE, from * PAGE, PAGE);
      forall p | 0 <= p <= terminals && p != to ensures PageAt(p) == old(PageAt(p)) {
        PagesApart(p, to, terminals);
      }
    }

    /** Executes a program that was found and is an executable. If the process that asks for it is not in
        front, the tables are as Execute says all the same, and no longer valid unless there was no room. */
    method ExecuteProgram() returns (ret: int)
      requires Shape() && HasRoom(View())
      modifies this`numActive, this`currentPid, this`tss, this`mappedPage
      modifies controlBlocks, scheduleTop, scheduleStack, terminalRunning
      ensures Shape() && View() == Execute(old(View()))
      ensures ret == if Full(old(View())) then -1 else 0
      ensures old(Valid()) && !old(waiting) ==>
                (Valid() <==> Full(old(View())) || old(currentProcess) == old(currentTerminal))
    {
      hide Inv, Row, SavedRow, PageAt, Esp0, FirstFree, Execute;
      ghost var s := View();
      if Inv(s) && !waiting {
        ExecuteExactly(s);
      }
      if numActive >= blocks - 1 {
        ExecuteFull(s);
        return -1;
      }
      StartProcess();
      return 0;
    }

    /** Makes a free block the current process, a child of the one so far. */
    method AllocateProcess()
      requires Sizes() && FirstFree(controlBlocks[..], 1) < blocks
      modifies this`numActive, this`currentPid, this`tss, controlBlocks
      ensures var pid := FirstFree(old(controlBlocks[..]), 1);
              && currentPid == pid && numActive == old(numActive) + 1 && tss == old(tss).(esp0 := Esp0(pid))
              && controlBlocks[..] == old(controlBlocks[..])[pid := Pcb(pid, old(currentPid), Esp0(pid))]
    {
      hide Esp0;
      currentPid := CreateNewPcb(currentPid);
      tss := tss.(esp0 := Esp0(currentPid));
      controlBlocks[currentPid] := controlBlocks[currentPid].(esp := tss.esp0);
    }

    method StartProcess()
      requires Shape() && InTables(View()) && Creatable(View()) && !Full(View())
      requires scheduleTop[currentTerminal] < blocks
      modifies this`numActive, this`currentPid, this`tss, this`mappedPage
      modifies controlBlocks, scheduleTop, scheduleStack, terminalRunning
      ensures Shape() && View() == Execute(old(View()))
    {
      hide Row, SavedRow, PageAt, Esp0, FirstFree;
      hide Execute, Full, Stacks, SavedTable, BackingPages;
      ghost var s := View();
      AllocateProcess();
      mappedPage := 0;
      if !terminalRunning[currentTerminal] {
        terminalRunning[currentTerminal] := true;
      }
      assert terminalRunning[..] == s.running[currentTerminal := true];
      Schedule();
      ExecuteIs(s, View());
    }

    /** The current process ends: its parent becomes the current one. */
    method LeaveProcess()
      requires Shape() && InTables(View()) && View().stacks[currentProcess] != []
      requires 0 <= controlBlocks[currentPid].parent < blocks
      modifies this`numActive, this`currentPid, this`tss
      modifies controlBlocks, scheduleTop, scheduleStack, scheduleEsp, scheduleEbp
      ensures Shape() && View() == Leave(old(View()))
    {
      hide Row, SavedRow, PageAt, Stacks, SavedTable, BackingPages, Leave;
      ghost var s := View();
      var parent := controlBlocks[currentPid].parent;
      DestroyPcb(currentPid);
      currentPid := parent;
      tss := tss.(esp0 := controlBlocks[currentPid].esp);
      Deschedule();
      LeaveIs(s, View());
    }

    /** The halt of the running program; a base shell is started anew. The tables stay valid exactly if a
        base shell is not in the background. */
    method HaltProgram()
      requires Valid() && !waiting
      modifies this`numActive, this`currentPid, this`tss, this`mappedPage
      modifies controlBlocks, scheduleTop, scheduleStack, scheduleEsp, scheduleEbp, terminalRunning
      ensures Shape()
      ensures var s := old(View());
              && s.stacks[s.currentProcess] != [] && 0 <= s.pcbs[s.currentPid].parent < |s.pcbs| && Creatable(Leave(s))
              && View() == Halt(s) && (Valid() <==> CanHalt(s))
              && var stack := s.stacks[s.currentProcess];
                 |stack| > 1 ==>
                   currentPid == stack[|stack| - 2] && View().stacks[s.currentProcess] == stack[..|stack| - 1]
    {
      ghost var s := View();
      if |s.stacks[s.currentProcess]| > 1 {
        HaltReturns(s);
      }
      LeaveHasRoom(s);
      HaltExactly(s);
      hide Inv, Leave, Execute, Row, SavedRow, PageAt, Stacks, SavedTable, BackingPages;
      LeaveProcess();
      if currentPid == SENTINEL {
        var ret := ExecuteProgram();
      }
    }

    /** Saves the processor in the place of the running terminal's top process. */
    method SaveContext()
      requires Shape() && InTables(View()) && lastEbp != 0
      modifies scheduleEsp, scheduleEbp, scheduleTss
      ensures Shape() && View() == Saved(old(View()), lastEsp, lastEbp)
    {
      hide PageAt, BackingPages;
      ghost var s := View();
      if scheduleTop[currentProcess] != 0 {
        var top := scheduleTop[currentProcess] - 1;
        scheduleTss[currentProcess, top] := tss;
        scheduleEsp[currentProcess, top] := lastEsp;
        scheduleEbp[currentProcess, top] := lastEbp;
        assert forall t :: 0 <= t < terminals && t != currentProcess ==> SavedOf(t) == old(SavedOf(t));
        assert SavedOf(currentProcess) == old(SavedOf(currentProcess))[top := Some(Context(lastEsp, lastEbp, tss))];
        assert SavedTable() == old(SavedTable())[currentProcess := SavedOf(currentProcess)];
        assert Stacks() == old(Stacks());
      }
    }

    /** The terminal whose turn it is next; the search ends because some terminal has a process. */
    method ChooseNext() returns (next: int)
      requires Shape() && InTables(View()) && View().stacks[View().currentProcess] != []
      ensures next == NextProcess(View()) && (terminalRequest != NO_REQUEST ==> next == terminalRequest)
    {
      hide PageAt, BackingPages, SavedTable, Ahead;
      if terminalRequest != NO_REQUEST {
        return terminalRequest;
      }
      ghost var stacks, c, n, d := Stacks(), currentProcess, terminals, 1;
      assert forall t :: 0 <= t < terminals ==> (stacks[t] == [] <==> scheduleTop[t] == 0);
      CircleStart(c, n);
      next := (currentProcess + 1) % terminals;
      while scheduleTop[next] == 0
        invariant 1 <= d <= n && 0 <= next == Ahead(c, d, n) < n
        invariant FirstBusy(stacks, c, 1) == FirstBusy(stacks, c, d)
        decreases n - d
      {
        CircleStep(c, d, n);
        next, d := (next + 1) % terminals, d + 1;
      }
      Wrapped(c, d, n);
    }

    /** Loads what was saved for a process. */
    method RestoreContext(top: nat)
      requires Shape() && 0 <= currentProcess < terminals && top < blocks
      modifies this`currentPid, this`lastEsp, this`lastEbp, this`tss, this`mappedPage
      ensures currentPid == scheduleStack[currentProcess, top]
      ensures lastEsp == scheduleEsp[currentProcess, top] && lastEbp == scheduleEbp[currentProcess, top]
      ensures tss == scheduleTss[currentProcess, top].(esp0 := Esp0(currentPid))
      ensures mappedPage == if currentProcess == currentTerminal then 0 else 1 + currentProcess
    {
      currentPid := scheduleStack[currentProcess, top];
      lastEsp := scheduleEsp[currentProcess, top];
      lastEbp := scheduleEbp[currentProcess, top];
      tss := scheduleTss[currentProcess, top];
      if currentProcess != currentTerminal {
        mappedPage := 1 + currentProcess;
      } else {
        mappedPage := 0;
      }
      tss := tss.(esp0 := Esp0(currentPid));
    }

    /** Goes over to a terminal's top process. */
    method DispatchTo(next: nat)
      requires Shape() && InTables(View()) && next < |View().stacks|
      modifies this
      ensures Shape() && View() == Dispatch(old(View()), next, old(lastEsp), old(lastEbp))
    {
      hide PageAt, Stacks, SavedTable, BackingPages, Dispatch, Esp0, Row, SavedRow;
      ghost var s := View();
      assert |s.stacks[next]| == |s.saved[next]| == scheduleTop[next];
      currentProcess := next;
      terminalRequest := NO_REQUEST;
      waiting := false;
      if scheduleTop[currentProcess] != 0 {
        var top := scheduleTop[currentProcess] - 1;
        assert Last(s.stacks[next]) == scheduleStack[next, top];
        assert Last(s.saved[next]) == SavedContext(scheduleEsp[next, top], scheduleEbp[next, top],
            scheduleTss[next, top]);
        if scheduleEbp[currentProcess, top] != 0 {
          RestoreContext(top);
        }
      }
      DispatchIs(s, View(), next);
    }

    /** The timer interrupt, with the processor's stack and base pointer when it came. */
    method TimerHandler(esp: int, ebp: int)
      requires Valid() && ebp != 0
      modifies this, scheduleEsp, scheduleEbp, scheduleTss
      ensures Valid() && View() == Tick(old(View()), esp, ebp)
      ensures old(View()).request != NO_REQUEST ==> View().currentProcess == old(View()).request
    {
      hide Inv, InTables, Tick, Saved, Dispatch, NextProcess, View;
      ghost var s := View();
      TickKeeps(s, esp, ebp);
      ServesRequest(s, esp, ebp);
      TickIs(s, esp, ebp);
      SetPointers(esp, ebp);
      SaveContext();
      var next := ChooseNext();
      DispatchTo(next);
    }

    /** The interrupt's entry code. */
    method SetPointers(esp: int, ebp: int)
      requires Shape()
      modifies this`lastEsp, this`lastEbp
      ensures lastEsp == esp && lastEbp == ebp && View() == old(View()).(cpu := Context(esp, ebp, old(View()).cpu.tss))
    {
      hide PageAt, Stacks, SavedTable, BackingPages, Row, SavedRow;
      lastEsp, lastEbp := esp, ebp;
    }

    /** Puts the page of the terminal on display away, and another's in its place. */
    method ShowPages(num: nat)
      requires Shape() && InTables(View()) && num < terminals && num != currentTerminal
      modifies this`currentTerminal, vram
      ensures Shape() && View() == ShowTerminal(old(View()), num)
    {
      hide PageAt, Stacks, SavedTable, Row, SavedRow;
      ghost var s := View();
      var previous := currentTerminal;
      currentTerminal := num;
      CopyPage(1 + previous, 0);
      CopyPage(0, 1 + num);
      assert BackingPages() == s.backing[previous := s.video];
    }

    /** Blanks the cells of the page on display: a space and its attribute in each. */
    method ClearDisplay()
      requires Shape() && InTables(View())
      modifies vram
      ensures Shape() && View() == old(View()).(video := Cleared(old(View()).video))
    {
      ghost var s, was := View(), vram[..];
      for i := 0 to 25 * 80
        invariant forall k :: 0 <= k < vram.Length ==>
                    vram[k] == if k < 2 * i then (if k % 2 == 0 then ' ' else 7 as char) else was[k]
      {
        vram[2 * i] := ' ';
        vram[2 * i + 1] := 7 as char;
      }
      assert PageAt(0) == Cleared(s.video);
      forall t | 0 <= t < terminals ensures PageAt(t + 1) == s.backing[t] {
        PagesApart(0, t + 1, terminals);
      }
      assert BackingPages() == s.backing;
    }

    /** The terminal is on display already, or it would need a process too many. */
    method IsIgnored(num: nat) returns (ignored: bool)
      requires Shape() && InTables(View()) && num < |View().stacks|
      ensures ignored <==> Ignored(View(), num)
    {
      hide PageAt, BackingPages, Row, SavedRow, Stacks, SavedTable;
      return num == currentTerminal || (numActive >= blocks - 1 && !terminalRunning[num]);
    }

    /** Changes the display; a running terminal is then asked for, and a fresh one made ready. */
    method BeginSwitch(num: nat) returns (running: bool)
      requires Shape() && InTables(View()) && num < |View().stacks| && !Ignored(View(), num)
      modifies this`currentTerminal, this`terminalRequest, this`waiting, this`currentPid, this`currentProcess, vram
      ensures Shape() && running == old(View()).running[num]
      ensures View() == if running then ShowTerminal(old(View()), num).(request := num, waiting := true)
          else Opened(old(View()), num)
    {
      hide PageAt, BackingPages, Row, SavedRow, Stacks, SavedTable, Cleared, ShowTerminal;
      ShowPages(num);
      running := terminalRunning[num];
      if running {
        terminalRequest := num;
        waiting := true;
      } else {
        ClearDisplay();
        currentPid := SENTINEL;
        currentProcess := num;
        waiting := false;
      }
    }

    /** The user asks for a terminal. The tables stay valid exactly if it is not a fresh one that takes over
        from a process which was never saved. */
    method TerminalSwitch(num: nat) returns (ret: int)
      requires Valid() && num < |View().stacks|
      modifies this, vram, controlBlocks, scheduleTop, scheduleStack, terminalRunning
      ensures Shape() && ret == 0
      ensures Creatable(old(View())) && View() == Switch(old(View()), num)
      ensures Valid() <==> CanSwitch(old(View()), num)
      ensures old(View()).stacks[num] != [] ==> View().currentTerminal == num
      ensures View() != old(View()) ==>
                View().currentTerminal == num && (old(View()).stacks[num] == [] ==> IsBlank(View().video))
    {
      hide Inv, InTables, Switch, View, HasRoom, Full, Execute, Opened, CanSwitch;
      ghost var s := View();
      SwitchExactly(s, num);
      SwitchIs(s, num);
      SwitchShown(s, num);
      var ignored := IsIgnored(num);
      if ignored {
        return 0;
      }
      var running := BeginSwitch(num);
      if !running {
        OpenedHasRoom(s, num);
        var r := ExecuteProgram();
      }
      return 0;
    }

    /** Stores one byte of the page that user programs see. */
    method StoreMapped(offset: nat, c: char)
      requires Sizes() && mappedPage <= terminals && offset < PAGE
      modifies vram
      ensures PageAt(mappedPage) == old(PageAt(mappedPage))[offset := c]
      ensures forall p :: 0 <= p <= terminals && p != mappedPage ==> PageAt(p) == old(PageAt(p))
    {
      PagesApart(mappedPage, if mappedPage == 0 then 1 else 0, terminals);
      vram[mappedPage * PAGE + offset] := c;
      forall p | 0 <= p <= terminals && p != mappedPage ensures PageAt(p) == old(PageAt(p)) {
        PagesApart(p, mappedPage, terminals);
      }
    }

    /** A user program writes through its screen page. */
    method UserWrite(offset: nat, c: char)
      requires Valid() && !waiting && offset < PAGE
      modifies vram
      ensures Valid() && View() == Write(old(View()), offset, c)
    {
      hide Inv, Row, SavedRow, Stacks, SavedTable, PageAt;
      ghost var s := View();
      WriteKeeps(s, offset, c);
      MappedInTables(s);
      PageSize(mappedPage);
      StoreMapped(offset, c);
      assert BackingPages() == if mappedPage == 0 then s.backing else s.backing[mappedPage - 1 := PageAt(mappedPage)];
    }

    lemma PageSize(p: nat)
      requires Sizes() && p <= terminals
      ensures |PageAt(p)| == PAGE
    {
    }

    /** The tables as they are cleared at startup. */
    constructor (terminals: nat, blocks: nat, vram: array<char>, bootStack: int, esp: int, ebp: int, tss: Tss)
      requires 0 < terminals && 2 <= blocks && vram.Length == (terminals + 1) * PAGE
      ensures Shape() && this.terminals == terminals && this.blocks == blocks && this.vram == vram
      ensures fresh(controlBlocks) && fresh(scheduleTop) && fresh(scheduleStack) && fresh(scheduleEsp)
          && fresh(scheduleEbp)
      ensures fresh(scheduleTss) && fresh(terminalRunning)
      ensures View() == Blank(terminals, blocks, Context(esp, ebp, tss), bootStack, PageAt(0), BackingPages())
    {
      this.terminals, this.blocks, this.vram := terminals, blocks, vram;
      controlBlocks := new Pcb[blocks](i => if i == SENTINEL then Pcb(SENTINEL, SENTINEL, bootStack)
          else Pcb(FREE, 0, 0));
      scheduleTop := new int[terminals](_ => 0);
      scheduleStack := new int[terminals, blocks]((_, _) => 0);
      scheduleEsp := new int[terminals, blocks]((_, _) => 0);
      scheduleEbp := new int[terminals, blocks]((_, _) => 0);
      scheduleTss := new Tss[terminals, blocks]((_, _) => tss);
      terminalRunning := new bool[terminals](_ => false);
      numActive, currentPid, currentProcess, currentTerminal := 0, SENTINEL, 0, 0;
      terminalRequest, waiting, mappedPage := NO_REQUEST, false, 0;
      lastEsp, lastEbp, this.tss := esp, ebp, tss;
      new;
      hide PageAt;
      ghost var blank := Blank(terminals, blocks, Context(esp, ebp, tss), bootStack, PageAt(0), BackingPages());
      assert Stacks() == blank.stacks && SavedTable() == blank.saved;
      assert controlBlocks[..] == blank.pcbs && terminalRunning[..] == blank.running;
    }

    /** Startup: only the sentinel is live, and the first shell is executed. */
    static method Boot(terminals: nat, blocks: nat, vram: array<char>, bootStack: int, esp: int, ebp: int, tss: Tss)
      returns (kernel: Kernel)
      requires 0 < terminals && 2 <= blocks && vram.Length == (terminals + 1) * PAGE
      ensures fresh(kernel) && kernel.Valid()
      ensures kernel.terminals == terminals && kernel.blocks == blocks && kernel.vram == vram
          && vram[..] == old(vram[..])
      ensures var blank := Blank(terminals, blocks, Context(esp, ebp, tss), bootStack, kernel.PageAt(0),
          kernel.BackingPages());
              InTables(blank) && Creatable(blank) && kernel.View() == Execute(blank)
    {
      hide Ready, Inv, Blank, Full, Execute;
      kernel := new Kernel(terminals, blocks, vram, bootStack, esp, ebp, tss);
      BlankReady(terminals, blocks, Context(esp, ebp, tss), bootStack, kernel.PageAt(0), kernel.BackingPages());
      BootKeeps(terminals, blocks, Context(esp, ebp, tss), bootStack, kernel.PageAt(0), kernel.BackingPages());
      ReadyExecute(kernel.View());
      ExecuteSafe(kernel.View());
      ghost var video, backing := kernel.PageAt(0), kernel.BackingPages();
      var ret := kernel.ExecuteProgram();
      assert kernel.PageAt(0) == video && kernel.BackingPages() == backing;
    }
  }

  lemma SwitchShown(s: State, num: nat)
    requires Inv(s) && num < |s.stacks|
    ensures Creatable(s) && (s.stacks[num] != [] ==> Switch(s, num).currentTerminal == num)
    ensures Switch(s, num) != s ==>
              Switch(s, num).currentTerminal == num && (s.stacks[num] == [] ==> IsBlank(Switch(s, num).video))
  {
    hide Tables, KernelStacks, TopsSaved, Flags, Switch, IsBlank, Creatable, FirstFree;
    SwitchIgnores(s, num);
    if s.stacks[num] != [] {
      SwitchShows(s, num);
    } else if Switch(s, num) != s {
      RoomIsFree(s);
      SwitchOpens(s, num);
    }
  }

  lemma MappedInTables(s: State)
    requires Inv(s)
    ensures InTables(s) && (s.mapped.Backing? ==> 0 <= s.mapped.terminal < |s.stacks|)
  {
  }

  lemma SwitchIs(s: State, num: nat)
    requires Inv(s) && num < |s.stacks| && Creatable(s)
    ensures InTables(s)
    ensures Ignored(s, num) ==> Switch(s, num) == s
    ensures !Ignored(s, num) ==>
              if s.running[num] then Switch(s, num) == ShowTerminal(s, num).(request := num, waiting := true)
              else Creatable(Opened(s, num)) && Switch(s, num) == Execute(Opened(s, num))
  {
    hide Tables, KernelStacks, TopRuns, TopsSaved, Flags, Execute, Cleared;
  }

  lemma CircleStart(c: nat, n: nat)
    requires c < n
    ensures (c + 1) % n == Ahead(c, 1, n) < n
  {
    Wrapped(c, 1, n);
  }

  lemma CircleStep(c: nat, d: nat, n: nat)
    requires c < n && 1 <= d <= n
    ensures d == n ==> Ahead(c, d, n) == c
    ensures d < n ==> (Ahead(c, d, n) + 1) % n == Ahead(c, d + 1, n) < n
    ensures (c + d) % n == Ahead(c, d, n)
  {
    Wrapped(c, d, n);
    if d < n {
      WrappedNext(c, d, n);
    }
  }

  /** The pointers with which the processor was interrupted replace those it was last given. */
  lemma TickIs(s: State, esp: int, ebp: int)
    requires Inv(s)
    ensures var now := s.(cpu := Context(esp, ebp, s.cpu.tss));
            && InTables(s) && InTables(now)
            && var saved := Saved(now, esp, ebp);
            && InTables(saved) && saved.cpu == now.cpu && saved.stacks[saved.currentProcess] != []
            && saved.currentProcess == s.currentProcess && |saved.stacks| == |s.stacks|
            && Dispatch(saved, NextProcess(saved), esp, ebp) == Tick(s, esp, ebp)
  {
    hide Tables, KernelStacks, Esp0, Flags, TopsSaved, FirstBusy;
  }

  lemma DispatchIs(s: State, r: State, next: nat)
    requires InTables(s) && next < |s.stacks|
    requires var moved := s.stacks[next] != [] && Last(s.saved[next]).Some?;
             && r.currentProcess == next && r.request == NO_REQUEST && !r.waiting
             && (moved ==> var pid, context := Last(s.stacks[next]), Last(s.saved[next]).value;
                           r.currentPid == pid && r.cpu == context.(tss := context.tss.(esp0 := Esp0(pid)))
                             && r.mapped == ScreenPage(s, next))
             && (!moved ==> r.currentPid == s.currentPid && r.cpu == s.cpu && r.mapped == s.mapped)
    requires && r.pcbs == s.pcbs && r.active == s.active && r.stacks == s.stacks && r.saved == s.saved
        && r.running == s.running
             && r.currentTerminal == s.currentTerminal && r.video == s.video && r.backing == s.backing
    ensures r == Dispatch(s, next, s.cpu.esp, s.cpu.ebp)
  {
  }

  lemma LeaveIs(s: State, r: State)
    requires InTables(s) && s.stacks[s.currentProcess] != [] && 0 <= s.pcbs[s.currentPid].parent < |s.pcbs|
    requires var parent, t, pcbs := s.pcbs[s.currentPid].parent, s.currentProcess,
        s.pcbs[s.currentPid := s.pcbs[s.currentPid].(pid := FREE)];
             && r.pcbs == pcbs && r.active == s.active - 1 && r.currentPid == parent
             && r.cpu == s.cpu.(tss := s.cpu.tss.(esp0 := pcbs[parent].esp))
             && r.stacks == s.stacks[t := Pop(s.stacks[t])] && r.saved == s.saved[t := Pop(s.saved[t])]
    requires && r.currentProcess == s.currentProcess && r.currentTerminal == s.currentTerminal && r.request == s.request
             && r.waiting == s.waiting && r.video == s.video && r.backing == s.backing && r.running == s.running
                 && r.mapped == s.mapped
    ensures r == Leave(s)
  {
  }

  lemma ExecuteIs(s: State, r: State)
    requires InTables(s) && Creatable(s) && !Full(s)
    requires var pid, t := FirstFree(s.pcbs, 1), s.currentTerminal;
             && r.pcbs == s.pcbs[pid := Pcb(pid, s.currentPid, Esp0(pid))] && r.active == s.active + 1
                 && r.currentPid == pid
             && r.cpu == s.cpu.(tss := s.cpu.tss.(esp0 := Esp0(pid)))
             && r.running == s.running[t := true] && r.mapped == Video
             && r.stacks == s.stacks[t := s.stacks[t] + [pid]] && r.saved == s.saved[t := s.saved[t] + [None]]
    requires && r.currentProcess == s.currentProcess && r.currentTerminal == s.currentTerminal && r.request == s.request
             && r.waiting == s.waiting && r.video == s.video && r.backing == s.backing
    ensures r == Execute(s)
  {
  }

  lemma ExecuteFull(s: State)
    requires InTables(s) && Creatable(s) && Full(s)
    ensures Execute(s) == s
  {
  }

  lemma PagesApart(p: nat, q: nat, terminals: nat)
    requires p <= terminals && q <= terminals && p != q
    ensures p * PAGE + PAGE <= q * PAGE || q * PAGE + PAGE <= p * PAGE
    ensures (p + 1) * PAGE <= (terminals + 1) * PAGE && (q + 1) * PAGE <= (terminals + 1) * PAGE
  {
  }
}
