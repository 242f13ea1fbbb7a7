# A verified model of the kernel, its terminals and its programs

The repository is a small 32-bit teaching kernel with three terminals, a keyboard line editor, a text
screen, a read-only file system and a few user programs. This project models its stateful parts in Dafny
and proves what they are for, over every input and over whole runs.

Every component has two layers. The lower one has the program's own form: a class with the arrays and
indices that the C or assembly code updates in place, and methods with its loops and branches. The upper
one is a small machine on values. The methods are proved to do what the machine does; the lemmas are about
the machine. Bytes of text are Dafny characters, with `'\0'` and `'\n'` written out. Check it with
`dafny verify dfyconfig.toml`.

## The components

**Processes and terminals** (`Scheduler`, `SchedulerInvariant`, `SchedulerRuns`, `SchedulerLaws`, `RoundRobin`,
`Kernel`).
Each terminal has a stack of processes; execute pushes, halt pops (and starts a base shell anew), the timer
goes round the terminals, and the user changes the display. The number of terminals and of process blocks
are parameters (3 and 7 in the repository). One invariant ties process blocks, stacks, saved contexts,
running flags, requests and the mapped screen page together. It holds after booting and after every run of
legal steps, and the guards for execute, halt and switch are exact: the invariant survives the step if and
only if the guard holds, on the values and on the kernel's own arrays. From it follow that process creation never fails once the count allows it and that
no stack overflows, that each terminal has a screen of its own whatever is switched, that turns are fair,
and that a preempted process comes back with exactly what was saved. A program that executes another goes on
as it was when that ends, whatever ran meanwhile; a terminal that the user asks for is shown, and has the next
turn; and every process has a kernel stack of its own.

**Screen** (`Screen`, `ScreenLayout`, `TextRows`). The 80x25 grid after any writes is a window on the
wrapped layout of everything written. Erasing takes back what was echoed, across line wraps and scrolling,
exactly as long as the row where it began has not left the screen. The model counts the rows that have
scrolled away, which the program does not, to say where in the whole text something stands.

**Line editor** (`LineEditing`, `HistoryRing`, `Editor`, `Echo`, `Mirroring`). The buffer, its indices and
the ring of 20 history slots are a text on both sides of a cursor and an unbounded list of lines, for every
sequence of keys. What a key echoes never leaves the screen. Prompt and line go on standing on the screen, with the cursor
at its place, if and only if no key finds the cursor too far left of its row: the condition is given for each
key, and proved exact for every run, every prompt and every line.

**Reader and Enter** (`ReadBuffer`, `Handshake`). Whatever is interleaved on whatever terminals, the reads of
a terminal return what an independent one-place mailbox delivers: the line as it was at the first Enter on
that terminal after the read began. The keyboard driver's methods are the steps of this machine.

**File system** (`FileSystem`, `Directory`). The pieces that reads return join to a prefix of the file; with
requests of one size the amount obtained is computed, and is the whole file if and only if the size divides
it or covers it. Reading a directory lists every name once, in slot order. Both are carried on to the
programs `cat` and `ls`.

**Streaming grep** (`Grep`, `GrepTail`, `CStrings`). The program with its 1 KB buffer prints what searching
the whole lines prints if and only if every line that holds the pattern fits the buffer, on a device whose
reads return what is left. On the kernel's own file system it searches the part that its reads reach, which
is computed from the text. What it prints for one pattern is right if and only if every line that holds the
pattern fits the buffer and ends within that part; for a file whose lines fit, it misses something for some
pattern if and only if there is more than newlines behind it.

**Fish** (`Blink`, `BlinkTiming`, `Frames`, `Animation`, `Fish`). A list in a static pool, a countdown for each
node, and a merge of two byte streams add up to one theorem: what each byte of the screen is after any
number of ticks. The program goes on to add a second blinker in the middle of the pictures, to synchronise it
and to remove it, and further theorems say what each byte is at every tick of that, also where two blinkers share
a place.

**Primitives** (`Memory`, `Numbers`). Word-at-a-time memory functions equal byte loops, and numbers are
printed as the only numeral without leading zeros that stands for them.

## What was found

- A read that runs over the end of a file returns nothing unless it starts at position 0
  (`FileSystem.ReadsWhatIsLeft`), so `cat` loses the end of a file of more than 1024 bytes unless 1024
  divides its length: the last byte of 1025, for example (`FileSystem.CatLosesAByte`). Grep asks for as many
  bytes as an unfinished line leaves room for, so that it can lose the end of a file of 2048 bytes whose lines
  all fit its buffer, and read one of 2038 whole (`GrepTail.MissesTen`). The fish program reads byte by byte
  and is not affected.
- A line whose length with its newline is exactly the number of bytes asked for loses the newline, and the
  search for it goes on into what is left of earlier lines (`Handshake.ReadFulfils`), or out of the buffer if
  they have left no newline there (`Handshake.SearchLeaves`). The first read of a terminal does that, if it
  asks for 1 byte and the line is empty: it returns 129 (`Handshake.FirstReadLeaves`).
- A character written more than 80 columns left of its row leaves whole rows out (`ScreenLayout.SkipsCells`).
  Editing gets there on a line that needs a third row, by going back: with a prompt of 40 characters and 120
  typed ones, 81 keys to the left and an insertion are enough (`Mirroring.ThirdRowBreaks`).
- Synchronising two blinkers always draws the off character; the screen then agrees with the second node if
  and only if the first is off or the characters are equal (`BlinkTiming.SyncShown`). Two that were just added
  are shown wrongly (`BlinkTiming.SyncMisshows`).
- Removing a blinker leaves its character on the screen. The `I` that the fish program adds at row 6, column 60
  stays there for good if both pictures are blank at that place (`Fish.FishLeaves`).
- Adding a blinker at location 0 links a slot that counts as free (`Blink.FreeHead`).
- A carriage return moves below the last row without scrolling (`Screen.StaysOnScreen`).
- Grep compares a line of more than 1024 bytes in pieces, and never finds an empty pattern.

## Model

| member | source | states |
|---|---|---|
| Scheduler.FirstFree | student-distrib/process_control.c:126-139 | the first free process block, and none before it is free |
| SchedulerInvariant.RoomMeansFree | student-distrib/process_control.c:121-139 | with fewer live processes than blocks the search finds a free block |
| SchedulerInvariant.PushTables | student-distrib/syscalls.c:112-118 | pushing a new process keeps: live pids are exactly the stack entries, each once, parents are the entries below, the count is the sum of the tops |
| SchedulerInvariant.PopTables | student-distrib/syscalls.c:131-139 | popping the top and freeing its block keeps the same |
| SchedulerInvariant.StacksFit | student-distrib/syscalls.c:112-118 | no stack is higher than the number of live processes, which is below the number of blocks: no stack array overflows |
| SchedulerInvariant.ExecuteSafe | student-distrib/syscalls.c:150-297 | once the count of processes allows it, execute finds a block and room on the stack, and the invariant holds again |
| SchedulerInvariant.TablesHaveRoom | student-distrib/syscalls.c:112-139 | whatever runs in front, as long as the count allows one more process there is a free block and a place on the displayed terminal's stack |
| SchedulerInvariant.ExecuteExactly | student-distrib/syscalls.c:150-297 | execute keeps the invariant if and only if the running terminal is the one on display, or there is no room |
| SchedulerInvariant.HaltExactly | student-distrib/syscalls.c:74-99 | halt keeps the invariant if and only if it does not end a base shell in the background |
| SchedulerInvariant.SwitchExactly | student-distrib/terminal.c:17-75 | a switch keeps the invariant if and only if it is ignored, goes to a running terminal, or the outgoing top process was saved before |
| SchedulerInvariant.ExecuteKeeps | student-distrib/syscalls.c:150-297 | execute under its guard keeps the whole invariant |
| SchedulerInvariant.HaltKeeps | student-distrib/syscalls.c:74-99 | halt with its respawn keeps the whole invariant |
| SchedulerInvariant.LeaveReady | student-distrib/syscalls.c:326-334 | after a base shell has left, a new one can be executed |
| SchedulerInvariant.FirstBusyFinds | student-distrib/interrupts.c:279-282 | if some terminal has a process, the search ends at one that has |
| SchedulerInvariant.TickKeeps | student-distrib/interrupts.c:260-330 | the timer interrupt keeps the whole invariant |
| SchedulerInvariant.SwitchKeeps | student-distrib/terminal.c:17-75 | a change of terminals keeps the whole invariant |
| SchedulerInvariant.WriteKeeps | student-distrib/syscalls.c:510-530 | a user program's write through its mapped page keeps the invariant |
| SchedulerRuns.BootKeeps | student-distrib/process_control.c:89-111 | after startup and the first execute the invariant holds, for all table sizes |
| SchedulerInvariant.TickAllowsSwitch | student-distrib/interrupts.c:268-320 | directly after a tick every switch keeps the invariant |
| SchedulerRuns.FreshTerminalOpens | student-distrib/terminal.c:60-71 | as long as there is room, a tick and a switch start the shell of a fresh terminal on a stack of its own |
| SchedulerRuns.After | student-distrib/syscalls.c:74-139 | the invariant holds after every run of steps whose guards hold |
| SchedulerRuns.ScreensIndependent | student-distrib/terminal.c:42-65 | a step changes a terminal's screen only by its own process's write or by opening it |
| SchedulerRuns.ScreensOverRuns | student-distrib/terminal.c:42-65 | over every run each screen, on display or backed, is what its own edits alone make of it |
| SchedulerRuns.OthersUntouched | student-distrib/interrupts.c:268-320 | a step leaves the stack and the saved context of every terminal that does not run, and only the timer goes over to one, with what was saved |
| SchedulerRuns.ComesBack | student-distrib/interrupts.c:294-320 | a terminal that is away comes back only by a timer interrupt, with exactly the context saved for it |
| SchedulerRuns.PreemptedResumes | student-distrib/interrupts.c:268-320 | a preempted process gets back its stack pointer, base pointer and TSS, whatever the other terminals did |
| SchedulerRuns.ResumesAtOnce | student-distrib/interrupts.c:268-320 | with no other terminal to turn to it goes on with the same context |
| SchedulerLaws.KernelStacksApart | student-distrib/syscalls.c:228-228 | kernel stacks of different pids are at least 32 KB apart |
| SchedulerLaws.StacksInPage | student-distrib/syscalls.c:228-232 | the kernel stacks recorded for any two live processes are at least 32 KB apart, and in the kernel's page of 4 MB for tables of up to 127 blocks |
| SchedulerLaws.OwnKernelStack | student-distrib/interrupts.c:318-318 | the kernel stack in the TSS is the one recorded for the running process and for no other live one |
| SchedulerLaws.ExecuteStarts | student-distrib/syscalls.c:150-297 | execute changes nothing if and only if every block is in use; otherwise the lowest free block is a child of the process so far, on top of the terminal on display |
| SchedulerLaws.HaltUndoesExecute | student-distrib/syscalls.c:74-86 | when a program that was just executed ends, the whole state is as before, but for what is left in the freed block |
| SchedulerLaws.HaltReturns | student-distrib/syscalls.c:74-86 | in front and in the background exactly the top entry goes, its block is free, the process below runs on its own kernel stack, and nothing else changes |
| SchedulerLaws.HaltRestarts | student-distrib/syscalls.c:326-334 | a base shell that ends in front is replaced by a new one, alone on the terminal and a child of none, and nothing else changes |
| SchedulerLaws.CallsReturn | student-distrib/syscalls.c:74-86 | a program executes another; after every run in which that stays on the stack, its end gives the processor back to the first, with its stack, parent, kernel stack and saved contexts |
| SchedulerLaws.SwitchShows | student-distrib/terminal.c:31-58 | a terminal with processes is shown and asked for, whether or not there is room; its page and the one on display change places, and nothing else changes |
| SchedulerLaws.SwitchIgnores | student-distrib/terminal.c:25-34 | a switch changes nothing if and only if the terminal is shown already, or has no process and every block is in use; else it is shown |
| SchedulerLaws.ClearedIsBlank | student-distrib/lib.c:19-25 | each of the 2000 cells is a space with attribute 7, and the rest of the page stays |
| SchedulerLaws.SwitchOpens | student-distrib/terminal.c:60-71 | a fresh terminal is shown blank, with one process that is a child of none and runs in front; all other stacks, blocks and screens stay |
| SchedulerLaws.TickServes | student-distrib/interrupts.c:276-320 | the tick after a switch to a terminal with processes goes to it: its top process runs in front, with what was saved for it |
| SchedulerLaws.RequestsOverRuns | student-distrib/interrupts.c:277-279 | after every run the request is the terminal with processes that the user asked for last since the last tick |
| SchedulerLaws.ServedOverRuns | student-distrib/interrupts.c:276-320 | after every run the next tick goes to that terminal, and to the next busy one if there is none |
| SchedulerLaws.FirstShell | student-distrib/process_control.c:89-111 | the first shell is process 1, alone on terminal 0, a child of none, with its own kernel stack and screens as they were |
| RoundRobin.NextInRound | student-distrib/interrupts.c:277-282 | from the i-th busy terminal the search goes to the next one, and from the last to the first |
| RoundRobin.TurnsOverRuns | student-distrib/interrupts.c:276-292 | in a run without switches each tick moves one place round the same terminals |
| RoundRobin.EachOncePerRound | student-distrib/interrupts.c:276-292 | of as many ticks as there are busy terminals, each terminal has exactly one, at a computed place |
| RoundRobin.TurnsComplete | student-distrib/interrupts.c:280-282 | a terminal is in the round if and only if it has a process |
| Kernel.Kernel.constructor | student-distrib/terminal.c:84-124 | the cleared tables are the blank state |
| Kernel.Kernel.Boot | student-distrib/process_control.c:89-111 | booting gives valid tables: the execute of the first shell on the cleared ones, with screen memory as it was |
| Kernel.Kernel.CreateNewPcb | student-distrib/process_control.c:121-162 | takes the first free block for the parent, or fails with the tables unchanged |
| Kernel.Kernel.DestroyPcb | student-distrib/process_control.c:191-196 | frees one block, and counts it |
| Kernel.Kernel.AllocateProcess | student-distrib/syscalls.c:205-228 | the new process is current, a child of the one before, with its own kernel stack in the TSS and in its block |
| Kernel.Kernel.Schedule | student-distrib/syscalls.c:112-118 | pushes the current process on the stack of the terminal on display, with nothing saved, and no other stack changes |
| Kernel.Kernel.Deschedule | student-distrib/syscalls.c:131-139 | pops the running terminal's stack, and clears the place |
| Kernel.Kernel.StartProcess | student-distrib/syscalls.c:205-297 | the part of execute that starts the process is the execute step |
| Kernel.Kernel.ExecuteProgram | student-distrib/syscalls.c:150-297 | execute on the arrays is the execute step, whoever asks for it, and fails exactly when there is no room; valid tables stay valid if and only if there is none or the process in front asks |
| Kernel.Kernel.LeaveProcess | student-distrib/syscalls.c:74-83 | the process leaves, and its parent goes on with its kernel stack |
| Kernel.Kernel.HaltProgram | student-distrib/syscalls.c:326-334 | halt on the arrays is the halt step, in front and in the background; the tables stay valid if and only if the guard of the step holds; with more than one entry, the process below runs |
| Kernel.Kernel.SetPointers | student-distrib/schedule_wrapper.S:10-11 | the interrupted stack and base pointer become the ones to save |
| Kernel.Kernel.SaveContext | student-distrib/interrupts.c:268-274 | the processor is saved in the place of the running top process |
| Kernel.Kernel.ChooseNext | student-distrib/interrupts.c:276-289 | the requested terminal, or the next busy one; the loop ends |
| Kernel.Kernel.DispatchTo | student-distrib/interrupts.c:291-320 | goes over to a terminal's top process if something was saved for it |
| Kernel.Kernel.TimerHandler | student-distrib/interrupts.c:260-330 | the interrupt on the arrays is the tick step, goes to the requested terminal if there is one, and keeps the tables valid |
| Kernel.Kernel.CopyPage | student-distrib/terminal.c:45-46 | one page becomes a copy of another, and no other page changes |
| Kernel.Kernel.ShowPages | student-distrib/terminal.c:39-46 | the display goes to its backing page and the other terminal's page to the display |
| Kernel.Kernel.ClearDisplay | student-distrib/lib.c:19-25 | every cell of the page on display becomes a blank |
| Kernel.Kernel.IsIgnored | student-distrib/terminal.c:25-34 | a switch is ignored to the terminal on display, or to a fresh one without room |
| Kernel.Kernel.BeginSwitch | student-distrib/terminal.c:36-68 | a running terminal is shown and asked for, a fresh one is shown, cleared and made current |
| Kernel.Kernel.TerminalSwitch | student-distrib/terminal.c:17-75 | the switch on the arrays is the switch step, to every terminal and at any time; a terminal with processes is shown, a fresh one is shown blank; the tables stay valid if and only if the guard of the step holds |
| Kernel.Kernel.StoreMapped | student-distrib/interrupts.c:305-314 | a store through the mapped page changes one byte of that page |
| Kernel.Kernel.UserWrite | student-distrib/interrupts.c:305-314 | a user program's write is the write step |
| Screen.ClearedCells | student-distrib/lib.c:19-25 | a space with attribute 7 in each of the 2000 cells, and the cursor at the top left |
| Screen.CharacterStored | student-distrib/lib.c:286-297 | a character is stored with attribute 7 at the cursor, which goes one on; a carriage return goes down and stores nothing |
| Screen.RowsMoveUp | student-distrib/lib.c:83-94 | behind the last row each row moves up by one, and a blank one comes in |
| Screen.StaysOnScreen | student-distrib/terminal.c:149-196 | writing a character keeps the cursor on the screen if and only if it is not a carriage return on the last row |
| Screen.StaysWritable | student-distrib/lib.c:286-297 | writing keeps the cursor where it can be written to, also left of the row's start |
| Screen.WriteInPieces | student-distrib/terminal.c:149-196 | writing in pieces is writing the whole |
| Screen.Display.constructor | student-distrib/lib.c:19-25 | a new display is a cleared screen |
| Screen.Display.Clear | student-distrib/lib.c:19-25 | every cell becomes blank |
| Screen.Display.TerminalClear | student-distrib/terminal.c:366-371 | a blank screen with the cursor at the top left |
| Screen.Display.Scroll | student-distrib/lib.c:83-94 | the overlapping copy moves every row up by one and blanks the last |
| Screen.Display.MoveToNextLine | student-distrib/lib.c:123-134 | scrolls on the last row, and otherwise goes down |
| Screen.Display.PutCharacter | student-distrib/lib.c:286-297 | stores the cell and moves the cursor with remainders as the processor computes them |
| Screen.Display.TerminalWrite | student-distrib/terminal.c:149-196 | writes the characters one after the other, or fails for fewer than one |
| Screen.Display.Erase | student-distrib/lib.c:100-117 | blanks the cell before the cursor and goes back to it, up a row if need be |
| TextRows.WrapAppend | student-distrib/terminal.c:159-189 | laying out a text is laying out its characters one at a time |
| TextRows.WrapByLine | syscalls/ece391grep.c:21-60 | wrapping a text is wrapping its lines one after the other |
| TextRows.WrapRowBounds | student-distrib/terminal.c:159-189 | no row is wider than the paper, and the open one is not full |
| ScreenLayout.WindowNextLine | student-distrib/lib.c:123-134 | a next line on the screen is an empty row of the document |
| ScreenLayout.WindowPut | student-distrib/lib.c:286-297 | a character on the screen is one more in the open row of the document |
| ScreenLayout.WindowWrite | student-distrib/terminal.c:160-189 | writing a character on the window is laying it out |
| ScreenLayout.ScreenShowsText | student-distrib/terminal.c:149-196 | from a cleared screen on, the grid and the cursor are the window on the last 25 rows of the layout of everything written |
| ScreenLayout.PrintableStep | student-distrib/terminal.c:160-189 | a printable character fills one cell and moves one on, scrolling at the end, from up to 80 columns left of the row |
| ScreenLayout.SkipsCells | student-distrib/lib.c:293-295 | from every column, how many cells a character leaves out: none from 80 columns left of the row on, whole rows further left |
| ScreenLayout.SkipsOnce | student-distrib/terminal.c:159-189 | where the cursor is in the whole text after writing: only the first character can leave cells out |
| ScreenLayout.EchoOverwrites | student-distrib/terminal.c:149-196 | written text stands in consecutive cells, everything else is as before, and a computed number of rows has scrolled away |
| ScreenLayout.BackspacesErase | student-distrib/lib.c:100-117 | so many erasures blank exactly the cells before the cursor, stopping at the top left |
| ScreenLayout.EraseUndoesEcho | student-distrib/lib.c:83-134 | erasing as much as was written blanks it and leaves the rest; the cursor is back if and only if its row is still on the screen |
| LineEditing.StaysProper | student-distrib/keyboard.c:235-333 | every key keeps the line within 127 characters, the cursor in it and the browsing within the lines kept |
| LineEditing.EraseUndoesInsert | student-distrib/keyboard.c:369-424 | a backspace takes back an insertion |
| LineEditing.KeyEdits | student-distrib/keyboard.c:235-333 | every editing key adds, takes or moves one character at the cursor, up to 127; only an Enter on a line that is not empty adds to the history |
| LineEditing.RunEdits | student-distrib/keyboard.c:235-333 | over every run of editing keys buffer and index are the text on both sides of the cursor |
| LineEditing.CursorMoves | student-distrib/keyboard.c:622-648 | k times left or right moves the cursor by k, as far as the line goes |
| LineEditing.RightUndoesLeft | student-distrib/keyboard.c:622-648 | as many times right as left changes nothing |
| LineEditing.UpStops | student-distrib/keyboard.c:438-453 | the newest 19 lines can come back, and up leads no further |
| LineEditing.EnteredComesBack | student-distrib/keyboard.c:106-147 | a submitted line is the first to come back, and the lines before are one step further |
| LineEditing.UpShows | student-distrib/keyboard.c:433-478 | k times up shows the k-th newest line, as far as lines are kept |
| LineEditing.DownShows | student-distrib/keyboard.c:487-530 | k times down shows the line that many steps nearer |
| LineEditing.DownUndoesUp | student-distrib/keyboard.c:433-530 | as many times down brings back the unsent line |
| HistoryRing.AtBase | student-distrib/keyboard.c:443-445 | the index equals the base if and only if nothing is being browsed |
| HistoryRing.AtOldest | student-distrib/keyboard.c:438-453 | the two tests hold if and only if the oldest line kept is shown: 19 once the ring is full |
| HistoryRing.SavesScratch | student-distrib/keyboard.c:443-456 | going up from the unsent line stores it and moves to the slot of the next older line |
| HistoryRing.StepsDown | student-distrib/keyboard.c:503-507 | going down moves to the slot of the next newer line |
| HistoryRing.StoresLine | student-distrib/keyboard.c:106-147 | a submitted line is in its slot, the base moves on, and the newest 19 lines are kept |
| Editor.Keyboard.constructor | student-distrib/keyboard.c:539-567 | cleared buffers are an empty session |
| Editor.Keyboard.InsertCharacter | student-distrib/keyboard.c:371-379 | the shifting loop inserts the character at the index |
| Editor.Keyboard.RemoveCharacter | student-distrib/keyboard.c:404-412 | the shifting loop removes the character before the index |
| Editor.Keyboard.ClearKeyboardBuffer | student-distrib/keyboard.c:577-588 | zeros and an empty line |
| Editor.Keyboard.CopyToHistory | student-distrib/keyboard.c:113-127 | the base slot becomes the buffer, and no other slot changes |
| Editor.Keyboard.CopyFromHistory | student-distrib/keyboard.c:463-472 | the buffer holds the line of the slot, with the cursor at its end |
| Editor.Keyboard.KeyboardInsert | student-distrib/keyboard.c:369-391 | the session has the character inserted, and the screen its echo |
| Editor.Keyboard.KeyboardBackspace | student-distrib/keyboard.c:402-424 | the session has the character removed, and the screen its echo |
| Editor.Keyboard.LeftArrow | student-distrib/keyboard.c:622-630 | the cursor moves left in the line and on the screen, if it can |
| Editor.Keyboard.RightArrow | student-distrib/keyboard.c:640-648 | the cursor moves right in the line and on the screen, if it can |
| Editor.Keyboard.ResetTerminalInput | student-distrib/terminal.c:382-390 | the line is erased from its end |
| Editor.Keyboard.ShowFromHistory | student-distrib/keyboard.c:458-475 | a line of the history takes the place of the edited one, in the buffer and on the screen |
| Editor.Keyboard.UpHistory | student-distrib/keyboard.c:433-478 | the arrays after an up key are the session after it, and the screen shows it |
| Editor.Keyboard.DownHistory | student-distrib/keyboard.c:487-530 | the same for a down key |
| Editor.Keyboard.KeyboardRead | student-distrib/keyboard.c:68-104 | copies up to the end of the line or as much as is asked for, and counts it |
| Editor.Keyboard.TerminalReturn | student-distrib/terminal.c:292-301 | a waiting program gets the line with its newline and is released; with none waiting the screen goes to a new row |
| Editor.Keyboard.SubmitLine | student-distrib/keyboard.c:268-271 | a line that is not empty becomes the newest of the history; an empty one keeps the browsing position |
| Editor.Keyboard.EnterKey | student-distrib/keyboard.c:266-278 | the line is submitted, handed over or left behind, and a new one begun |
| Editor.Keyboard.ClearKey | student-distrib/keyboard.c:339-344 | empties the line and the screen |
| Editor.Keyboard.HandleKey | student-distrib/keyboard.c:235-333 | for every decoded key, every line and every screen with room for the line: session, screen, switch and read buffer after it, and room again |
| Editor.Keyboard.BeginRead | student-distrib/terminal.c:213-221 | on the buffers, a read of at least one byte is the begin step of the handshake, and any other changes nothing |
| Editor.Keyboard.CompleteRead | student-distrib/terminal.c:228-244 | on the buffers, the second half of a read is the complete step of the handshake and returns its outcome |
| Echo.CursorEchoes | student-distrib/keyboard.c:622-648 | a cursor key moves the cursor on the screen as far as in the line, and changes no cell |
| Echo.FinishingEchoes | student-distrib/terminal.c:292-301 | an Enter that is waited for leaves the screen as it is, any other goes to the start of the next row, and clearing leaves blank cells |
| Echo.WritesForward | student-distrib/terminal.c:149-196 | writing goes on, or at least to the last row, from wherever the cursor is |
| Echo.EchoAnchored | student-distrib/keyboard.c:235-333 | for every key, line and prompt, what the echo writes is on the screen, and there is room for the line again |
| Echo.StandsWrite | student-distrib/terminal.c:149-196 | writing on from up to 80 columns left of the row makes the longer text stand, with all that was there before it |
| Echo.StandsBackspaceTimes | student-distrib/terminal.c:382-390 | erasing from the end leaves what stands before it |
| Mirroring.WritesExactly | student-distrib/terminal.c:149-196 | writing makes the text stand if and only if it starts no more than 80 columns left of the row |
| Mirroring.InsertExactly | student-distrib/keyboard.c:379-389 | after an insertion the screen mirrors the line if and only if the cursor was at column -80 or right of it |
| Mirroring.EraseExactly | student-distrib/keyboard.c:414-421 | after a backspace it does if and only if the cursor was at column -79 or right of it |
| Mirroring.RedrawExactly | student-distrib/keyboard.c:458-475 | after another line has replaced it, it does if and only if that is empty, the end of the old one was on its row, or its start no more than 80 columns left |
| Mirroring.KeyExactly | student-distrib/keyboard.c:235-333 | for every key, line and prompt: the screen goes on mirroring the line if and only if the column of the cursor allows it |
| Mirroring.RunExactly | student-distrib/keyboard.c:369-530 | over every run of keys the screen mirrors the line all the way if and only if no key finds the cursor too far left |
| Mirroring.ShortLinesMirror | student-distrib/keyboard.c:369-530 | every run mirrors the line all the way as long as prompt and line together need no third row |
| Mirroring.InsertFarBack | student-distrib/keyboard.c:369-391 | for every prompt and line: type it, go back, insert; the screen mirrors the line all the way if and only if the cursor is moved at most 80 columns left of its row |
| Mirroring.ThirdRowBreaks | student-distrib/keyboard.c:369-391 | with 40 characters of prompt and 120 of line, 80 keys to the left are right, and 81 are not |
| Mirroring.ShortPromptMirrors | student-distrib/keyboard.c:284-286 | after a prompt of at most 32 characters on its row, every run mirrors every line all the way |
| CStrings.Strncpy | student-distrib/lib.c:586-597 | the string, cut or filled up with zeros to the length |
| Handshake.ReadFulfils | student-distrib/terminal.c:228-244 | a read returns the length with newline if and only if that is not the number asked for, and the characters that fit, the newline among them if there is room for it and the zero |
| Handshake.SearchLeaves | student-distrib/terminal.c:231-234 | the search for the newline leaves the buffer if and only if the newline was cut off and no longer line left one behind it |
| Handshake.CountsOldLine | student-distrib/terminal.c:228-245 | if the newline was cut off, the exact count: up to the first newline left behind it, or beyond the buffer |
| Handshake.OldBytesStay | student-distrib/terminal.c:228-294 | behind a line the read buffer keeps what was there, and a read changes only the last byte it asked for |
| Handshake.OutBytes | student-distrib/terminal.c:235-235 | a read returns the bytes up to the first zero, what is left of older lines among them, and zeros behind |
| Handshake.FirstReadLeaves | student-distrib/terminal.c:207-245 | a run from the first state whose read of 1 byte returns a NUL and 129: the search leaves the buffer |
| Handshake.StepRepresents | student-distrib/terminal.c:292-301 | every event on the drivers' buffers is an event of the terminal's own mailbox, or none |
| Handshake.ReadsOverRuns | student-distrib/terminal.c:207-301 | in every interleaving a terminal's completed reads return, one for one, what its mailbox delivers from its own events |
| Handshake.DeliversFirstEnter | student-distrib/terminal.c:207-245 | a waiting program gets the line as edited up to the first Enter, later Enters change nothing, and without one it waits |
| FileSystem.JoinedAt | student-distrib/filesystem_driver.c:128-157 | a byte of the joined blocks is the byte of its block |
| FileSystem.OpenFile.ReadData | student-distrib/filesystem_driver.c:101-161 | the count, the new position, the bytes of the file, and how far the buffer is touched, on every path and for every index node number |
| FileSystem.OpenFile.FileRead | student-distrib/filesystem_driver.c:257-261 | a read from the file's position returns the bytes of the file there |
| FileSystem.ReadsWhatIsLeft | student-distrib/filesystem_driver.c:132-160 | a read returns what is left, up to the request, if and only if it is the first, does not run over the end, or is at the end |
| FileSystem.ReadsArePrefix | student-distrib/filesystem_driver.c:101-161 | for any sizes, the returned bytes join to the file from the first position to the last |
| FileSystem.FixedSizeReads | student-distrib/filesystem_driver.c:101-161 | with one size the position stays within the obtainable amount, and a read returns 0 if and only if it has been reached |
| FileSystem.WholeFileObtained | student-distrib/filesystem_driver.c:142-144 | that amount is the file if and only if the size covers or divides its length |
| FileSystem.CatLosesAByte | student-distrib/filesystem_driver.c:142-144 | of a file of 1025 bytes the obtainable prefix lacks the last |
| FileSystem.Cat | syscalls/ece391cat.c:21-30 | the program prints exactly the obtainable prefix for 1024 bytes |
| Directory.OpenDirectory.constructor | student-distrib/filesystem_driver.c:302-306 | an opened directory has as many names left as the boot block counts |
| Directory.OpenDirectory.DirectoryRead | student-distrib/filesystem_driver.c:359-399 | returns the next name in slot order, cut to the request, and takes it off what is left; 0 and no change once nothing is left |
| Directory.ReadDentryByIndex | student-distrib/filesystem_driver.c:74-90 | an entry below the number of index nodes |
| Directory.CopyName | student-distrib/filesystem_driver.c:378-394 | copies a name up to its zero or the request |
| Directory.CompareNames | student-distrib/lib.c:549-563 | zero if and only if the names are the same |
| Directory.ReadDentryByName | student-distrib/filesystem_driver.c:34-63 | the first slot with the name, and failure if and only if there is none or the name is empty or too long |
| Directory.ListsSlots | student-distrib/filesystem_driver.c:359-399 | as many names are listed as slots are used, and that of a used slot comes after those of the used slots before it |
| Directory.FindsOwnSlots | student-distrib/filesystem_driver.c:44-60 | every listed name leads to its own slot if and only if no name occurs twice |
| Directory.Ls | syscalls/ece391ls.c:18-28 | the program prints every name that is left once, in slot order, each on its line |
| CStrings.Strlen | syscalls/ece391support.c:6-12 | the length of the string that starts there |
| CStrings.Strcpy | syscalls/ece391support.c:14-17 | the overlapping copy down moves the string with its zero, and changes nothing else |
| CStrings.Strncmp | syscalls/ece391support.c:35-46 | zero if and only if the strings agree on their first n characters |
| Grep.ContainsMeans | syscalls/ece391grep.c:42-51 | a line holds a pattern if and only if it is the pattern, not empty, with something in front and something behind |
| Grep.SearchLine | syscalls/ece391grep.c:42-51 | finds the pattern if and only if the line holds it |
| Grep.ReportIfFound | syscalls/ece391grep.c:41-51 | a line that holds the pattern is reported once, whole |
| Grep.FindLineEnd | syscalls/ece391grep.c:30-32 | stops at the newline or at the end of the data |
| Grep.KeepUnfinished | syscalls/ece391grep.c:35-38 | the unfinished line is at the front afterwards |
| Grep.PendingStep | syscalls/ece391grep.c:29-57 | what remains to be found is the first line's finding and what remains behind it |
| Grep.ScanBuffer | syscalls/ece391grep.c:28-57 | scanning moves findings from pending to printed, none lost or added; a full buffer keeps exactly the unfinished line that does not fill it |
| Grep.TextFile.Read | student-distrib/filesystem_driver.c:257-261 | an open file of the kernel returns what its file system does, and another device what is left |
| Grep.ReadBehind | syscalls/ece391grep.c:22-27 | a read adds the next bytes of the file to what the buffer holds |
| Grep.FollowsNext | syscalls/ece391grep.c:21-60 | how much is held decides how much the next read asks for, and so where reading ends |
| Grep.SearchFile | syscalls/ece391grep.c:21-60 | all rows that hold the pattern in the part of the file that is read, in order; a prefix of them if the device fails |
| Grep.DoOneFile | syscalls/ece391grep.c:9-66 | output and result for an open, a read and a close that succeed or fail, on the kernel's file system and on a device that returns what is left |
| Grep.StreamingEqualsBatch | syscalls/ece391grep.c:9-66 | streaming finds what whole-file line search finds if and only if every line that holds the pattern fits the buffer |
| Grep.PrintedInjective | syscalls/ece391grep.c:45-48 | different findings put different characters on the terminal |
| GrepTail.UnreadTailMatters | syscalls/ece391grep.c:58-60 | a tail that is not read makes no difference, whatever the pattern, if and only if it is only newlines |
| GrepTail.ReachesEnd | syscalls/ece391grep.c:21-60 | on a device that returns what is left, everything is read |
| GrepTail.MissesLessThanABuffer | student-distrib/filesystem_driver.c:142-144 | on the kernel's file system less than a buffer is missed, and nothing of a file that fits one |
| GrepTail.FindsEveryLine | syscalls/ece391grep.c:9-66 | grep finds every line with the pattern, whatever it is, if and only if there are only newlines behind where its reading ends |
| GrepTail.HitsEndSplit | syscalls/ece391grep.c:29-57 | every line with the pattern ends before a place if and only if the first one does and all behind it do |
| GrepTail.PartFinds | syscalls/ece391grep.c:29-57 | for one pattern: the lines of the part up to a place have all the findings of the text, and no others, if and only if every line with the pattern ends at or before that place |
| GrepTail.PartStreams | syscalls/ece391grep.c:21-60 | for one pattern: streaming through a part of a file finds what whole-file line search finds if and only if the lines with the pattern fit the buffer and end within the part |
| GrepTail.PrintsEveryLine | syscalls/ece391grep.c:9-66 | for every file and pattern, on the kernel's file system or not, grep puts on the terminal what printing every line with the pattern would if and only if each of them fits the buffer and ends before its reading does |
| GrepTail.MissesTen | syscalls/ece391grep.c:21-60 | a file of 2048 bytes with three lines that fit the buffer, whose last 10 bytes are missed; no pattern that the last line holds is found as it should, and the file without them is read to its end |
| Blink.LivePlusFree | fish/fish.c:160-170 | slots in the list and free slots are always 2000 together |
| Blink.FullWhenNoneFree | fish/fish.c:160-170 | the list has 2000 nodes if and only if no slot has location 0 |
| Blink.FreeHead | fish/fish.c:164-165 | after an addition at location 0 no list is well formed |
| Blink.Find | fish/blink.S:351-379 | the newest node at the location, and none before it |
| Blink.LinkFront | fish/blink.S:159-162 | linking a free slot in front keeps the chain acyclic and exactly the slots in use |
| Blink.Unlink | fish/blink.S:207-223 | unlinking a slot and freeing it keeps the same, and the order of the rest |
| Blink.Driver.constructor | fish/fish.c:21-28 | a zeroed pool is an empty list |
| Blink.Driver.Malloc | fish/fish.c:160-170 | the first free slot, or none if and only if all are in use |
| Blink.Driver.FindHelper | fish/blink.S:351-379 | the slot of the newest node at the location, if any |
| Blink.Driver.FindPrevious | fish/blink.S:207-214 | the link that leads to the slot; the search ends |
| Blink.Driver.IoctlAdd | fish/blink.S:105-184 | prepends a started node and draws it, or fails off the screen or on a full pool |
| Blink.Driver.IoctlRemove | fish/blink.S:187-237 | deletes the newest node at the location only, or fails |
| Blink.Driver.IoctlFind | fish/blink.S:302-345 | copies out the node at the location, or fails |
| Blink.Driver.IoctlSync | fish/blink.S:240-300 | gives the second node the timing of the first, and draws its off character |
| Blink.Driver.TickOne | fish/blink.S:60-90 | one node's tick: its countdown, its status and its cell |
| Blink.Driver.Tasklet | fish/blink.S:49-99 | every node ticks once, in list order |
| BlinkTiming.AddAccepts | fish/blink.S:105-157 | a node is added if and only if its place is on the screen and there are fewer than 2000 |
| BlinkTiming.AddDraws | fish/blink.S:105-184 | on an empty place or on top of other nodes: the added cell shows the new node as on at once, no other byte changes, and it is in front of the list |
| BlinkTiming.TickKeepsByte | fish/blink.S:49-99 | a place where no node changes in a tick keeps its character |
| BlinkTiming.TickDraws | fish/blink.S:49-99 | of the nodes that change at one place in a tick the last in the list is seen |
| BlinkTiming.SyncDraws | fish/blink.S:240-300 | the newest node at the second place takes the timing of the newest at the first and is drawn as off; no other node and no other byte changes, and nothing without either |
| BlinkTiming.RemoveTakes | fish/blink.S:187-237 | the newest node at the place leaves the list, and the screen stays as it is |
| BlinkTiming.ClosedForm | fish/blink.S:49-99 | after t ticks status and countdown are those of t modulo the period, for every pair of 16-bit lengths |
| BlinkTiming.LockstepNodes | fish/blink.S:60-90 | nodes with the same timing keep it |
| BlinkTiming.NodesTickAlone | fish/blink.S:49-99 | nodes tick independently of one another |
| BlinkTiming.SyncLockstep | fish/blink.S:240-300 | after synchronisation the two nodes agree after every number of ticks |
| BlinkTiming.StaysShown | fish/blink.S:49-99 | the screen goes on showing every node as its status says |
| BlinkTiming.ElsewhereUntouched | fish/blink.S:43-99 | ticks change no byte where no node is |
| BlinkTiming.AddStaysShown | fish/blink.S:105-184 | an addition at a new place keeps every node shown |
| BlinkTiming.SyncShown | fish/blink.S:277-286 | after synchronisation the screen agrees with the nodes if and only if the first is off, or the second's characters are the same |
| BlinkTiming.SyncMisshows | fish/blink.S:277-286 | two nodes with different characters, added and synchronised before the first tick: the screen does not agree |
| BlinkTiming.RemoveNewest | fish/blink.S:187-237 | removing takes back the addition at that location, and otherwise what removing would have taken before |
| Frames.PixelAt | fish/fish.c:98-130 | the picture has each byte of the file at its row and column |
| Frames.PixelFrom | fish/fish.c:98-130 | and nothing anywhere else |
| Frames.NextChar | fish/fish.c:102-116 | the next character of the line, and at its end a newline again and again |
| Frames.AddCell | fish/fish.c:118-128 | a cell is added if either picture has something in it, with a space for a line that is over |
| Frames.AddRow | fish/fish.c:98-130 | a row adds the cells of both lines up to the end of the longer |
| Frames.AddFrames | fish/fish.c:78-148 | both files are merged line by line, to the end of the longer |
| Animation.AnimationShows | fish/fish.c:78-148 | for pictures that fit, after t ticks each non-blank cell shows the first picture if t/15 is even and else the second, and every other byte is untouched |
| Animation.Wait | fish/fish.c:41-44 | so many clock interrupts are so many ticks of the device |
| Animation.Play | fish/fish.c:36-44 | the program's first part leaves exactly that in screen memory |
| Fish.TickScreenLocal | fish/blink.S:49-99 | what a byte becomes in a tick depends on that byte and the nodes only |
| Fish.VisitorKeeps | fish/fish.c:46-71 | while the second blinker comes, is synchronised and goes, all other nodes and all other bytes are what they would be without it |
| Fish.TickSeen | fish/blink.S:49-99 | of two nodes at the place the one that changed last is seen, and the picture's if they changed together |
| Fish.VisitorShows | fish/fish.c:46-57 | for pictures that fit, every byte at every tick while the second blinker is there in its own time: 7 ticks `I`, 6 ticks `M`, over or under the pictures |
| Fish.InStepShows | fish/fish.c:59-64 | every byte at every tick after the synchronisation: the second blinker changes with the pictures if they have a first cell, and else goes on as before |
| Fish.FishLeaves | fish/fish.c:66-71 | every byte at every tick after the removal: what the pictures alone would show, but for an `I` at the second blinker's place if both are blank there; the list is that of the pictures |
| Fish.Visit | fish/fish.c:46-71 | the program's second part is those steps of the device |
| Fish.Run | fish/fish.c:23-76 | the whole program leaves exactly that in screen memory |
| Memory.SpreadBytes | student-distrib/lib.c:389-392 | every byte of the spread doubleword is the given one |
| Memory.Memset | student-distrib/lib.c:389-423 | for every length and alignment: each byte is set and nothing else |
| Memory.Memcpy | student-distrib/lib.c:472-509 | for every length and alignment the destination has the source's bytes, and nothing else changed |
| Memory.CopyAligned | student-distrib/lib.c:490-500 | doublewords and then the rest copy what is left |
| Memory.Memmove | student-distrib/lib.c:518-536 | the original source bytes are at the destination for every overlap |
| Numbers.DigitsEvaluate | student-distrib/lib.c:339-344 | the digits evaluate to the number |
| Numbers.NumeralEvaluates | student-distrib/lib.c:321-351 | so does the numeral, with zero written as one digit |
| Numbers.NumeralUnique | student-distrib/lib.c:321-351 | a numeral without a leading zero is the one printed for its value |
| Numbers.NoLeadingZero | student-distrib/lib.c:339-344 | a positive number has no leading zero |
| Numbers.NumeralFits | student-distrib/lib.c:189-189 | a 32-bit number has at most 32 digits, and at most 8 from radix 16 on |
| Numbers.Strrev | student-distrib/lib.c:357-370 | reverses the string in place, and nothing else changes |
| Numbers.WriteDigits | student-distrib/lib.c:339-344 | the digits, the lowest first |
| Numbers.Itoa | student-distrib/lib.c:321-351 | the numeral and a zero, and nothing else changes |
| Numbers.PrintHex | student-distrib/lib.c:187-193 | prints the hexadecimal numeral |
| Numbers.PrintHexAlternate | student-distrib/lib.c:193-203 | prints exactly 8 hexadecimal digits with the same value |
| Numbers.PrintUnsigned | student-distrib/lib.c:209-216 | prints the decimal numeral |
| Numbers.PrintSigned | student-distrib/lib.c:219-232 | prints a sign and a numeral that stand for the number, also for the smallest one |

## Left out

- Ports, interrupt controllers, descriptor tables, page tables other than the mapped screen page, TLB
  flushes, exceptions and multiboot: hardware. Stack and base pointers, the TSS and the mapped page
  are abstract data.
- Finding and checking the executable in execute: it is assumed to be there; what fails before the process
  is created changes nothing that is modelled.
- Halt and execute are single steps. Between enabling interrupts and the respawn of a base shell a timer
  interrupt could come in (`student-distrib/syscalls.c:329-334`); such runs are not modelled.
- The spin in a switch to a running terminal (`student-distrib/terminal.c:53-56`) is a flag that the next
  tick clears; whether the loop sees the tick is not modelled.
- A switch to terminal number 3 passes the test at `student-distrib/terminal.c:20` and is not modelled.
- The cursor kept for each terminal, and the kernel's own pointer to screen memory, which is shared: each
  screen is modelled as its page, and the editor as working on the terminal on display.
- Kernel stacks: only the pointer for each process is modelled, not whether what execute puts on a stack
  fits between two of them. Argument strings and file tables of processes are not modelled.
- Opening files when no slot is free, and closing them.
- Scancodes and the shift, caps, control and alt keys: the editor gets decoded keys. The tables have no
  carriage return, and their newline is at the entry of Enter (`student-distrib/keyboard.h:72`), which is
  never looked up.
- Editor.Keyboard.HandleKey: a line that is being edited while a program prints. Output can leave the cursor
  where the end of the line would be behind column 79; the code takes the next key there too.
- The history belongs to the process on display: one editor object stands for one such process, and the
  clearing by execute (`student-distrib/syscalls.c:280-281`) is its constructor. The handshake keeps one
  history for each terminal.
- Reads of more than 128 bytes from a terminal, and two readers on one terminal.
- Editor.Keyboard.CompleteRead: requires a newline that the cut leaves; without one the code's search runs
  out of the buffer, exactly when `Handshake.SearchLeaves` says.
- Directory.OpenDirectory.constructor: if the boot block counts more names than there are, every slot must be
  below the number of index nodes; otherwise the code reads on with an entry it never looked up.
- Directory.OpenDirectory.DirectoryRead: for requests of 0 to 32 bytes and used slots below the number of index
  nodes; a longer request reads on behind the name, and a negative one never returns.
- Directory.Ls: reads and writes that fail, which they do not do here.
- FileSystem.OpenFile.ReadData: the value of the byte copied from behind the file.
- FileSystem.Cat: writes that fail, which the terminal's do not for a positive count.
- Frames.AddCell: no blinker at location 0, to which the 16-bit location of a far row can wrap around; there
  the pool takes it for a free slot.
- Frames.AddRow: the same for every cell of the row.
- Frames.AddFrames: the same for both pictures, and files that cannot be opened.
- Kernel.Kernel.CreateNewPcb: the file table of the new process and its arguments.
- Kernel.Kernel.StartProcess: the clearing of the keyboard buffer and of the history.
- Kernel.Kernel.ExecuteProgram: commands that are too long, not found or no executables.
- Kernel.Kernel.HaltProgram: not while the process waits in the keyboard interrupt, where it cannot halt.
- Kernel.Kernel.LeaveProcess: closing the files of the process.
- Screen.Display.TerminalWrite: texts without carriage returns; after one on the last row the code writes
  behind the screen (`Screen.StaysOnScreen`).
- Memory.Memcpy: for disjoint places or a move down, where it is right. The direction flag, which a move up
  leaves set, is not modelled.
- Grep.DoOneFile: the file has no zero bytes, and the byte behind the buffer, which is never initialised,
  is not a newline at first.
- Grep.SearchFile: the same.
- Animation.AnimationShows: pictures of at most 25 rows and lines of at most 40 characters, which is what
  fits on the screen right of column 40.
- Blink.Driver.IoctlAdd: after an addition at location 0 the list is no longer well formed, and nothing is
  promised.
- Printing text with `printf` and `puts` directly: only the characters are modelled, not where they appear.
- The remaining user programs, the emulation layer for Linux, signals, the clock device, and the kernel's
  own test code.
