# psychOS, verified

psychOS is a small multitasking x86 kernel with three text terminals, a read-only file system and
a handful of user programs. This project models the parts of it whose correctness spans several
functions or a whole run, and proves what they promise. `dafny verify dfyconfig.toml` checks all of
it. Code that works by changing things in place is modelled as classes, arrays and loops, each
proved against a function on values; the properties of whole runs are lemmas about those functions.

| modules | part of the system |
|---|---|
| RingBuffer, LineDiscipline | the circular buffer, and what typing and reading do to it over any history |
| Screens, TerminalModel, Typing | one terminal's screen and input together, what typing shows, and three terminals as a system |
| DisplayDriver, TerminalDriver | the shared video memory, and the driver that multiplexes it |
| Process, Chains, Contexts, Scheduling, Pids, RtcTiming, Calls | the process table as a state machine and its whole-run properties |
| Kernel | the system calls and interrupt handlers, and whole runs of them from boot |
| FileSystem, Directory | block-by-block reads, names, lookup and listing |
| Paging, Loader | the tables built for each process, what they mean for every address, and how a program gets behind them |
| GrepSpec, Grep | the streaming search of the `grep` program against a filter over lines |
| Command, Numbers | command lines from the keyboard to a program's arguments; number printing |

The main results:

- Under every interleaving of keys, reads, program output, redraws, resets and terminal switches,
  each terminal ends as if it had run alone on its own actions (`TerminalDriver.Driver.Serve`), and
  its screen shows the last 25 rows of an endless sheet of paper (`Screens.ScreenShowsPaper`).
- What reads return is exactly what a simple line editor makes of the keystrokes
  (`LineDiscipline.LineDisciplineRefinesEditor`), nothing is lost for reads of any size
  (`DeliveryConserves`), and the wake-up counter is exactly the buffered newlines less the short
  reads, counted from the sizes asked for (`WakeupCounter`).
- What is typed shows: after any typing and erasing without tabs the screen is the one Ctrl+L would
  redraw, unless erased text had scrolled it (`Typing.ScreenIsRedrawnIff`), and that one shows the
  buffered text character by character (`Typing.RedrawShowsBuffer`).
- From boot, tab-free typing and backspace-free output never leave any screen
  (`TerminalDriver.Driver.BootAndServe`).
- In every reachable state the processes form three stacks, and stack pointer, page directory and
  TSS agree on who is running (`Chains.ReachableIsStacked`); the handlers themselves keep it so from
  boot on, whatever arrives (`Kernel.KernelState.Serve`). An execute returns with the saved
  registers and its own child's status (`Contexts.ExecuteReturnsStatus`), and preemption restores
  what it saved (`Contexts.PreemptionRestoresContext`).
- A timer tick goes to the next leaf, and three ticks serve all three terminals
  (`Scheduling.TickMovesToNextLeafIff`, `RoundRobinIff`); RTC reads are spaced by whole intervals,
  and by the rate a process has set (`RtcTiming.ReadsAreSpaced`, `Calls.RateSpacesReads`).
- Reading in blocks is slicing a flat file (`FileSystem.ReadData`), user mode reaches exactly the
  process's own frame and one video page (`Paging.UserReach`), a loaded program is what its process
  finds there and disturbs no other (`Loader.Loading.StartProgram`), and the search through a 1024-byte
  buffer prints what a search of the whole file would (`Grep.DoOneFile`,
  `GrepSpec.GrepIsLineFilterIff`).

Several properties one would expect are false of the code. Each is kept as the code has it, with
the exact condition under which it holds and, where it is a run, one that reaches the failure:

- A tab typed at column 4 prints nothing but erases four cells, so a backspace can leave the screen
  (`TerminalModel.TabBreaksCursorSafety`, `KeyLeavesScreenIff`). The tab mask is 4, although the
  comments speak of aligning to multiples of four, which a mask of 3 would do.
- A row scrolled away by a character that is erased again does not come back, so the screen then
  differs from what Ctrl+L redraws (`Typing.ScreenIsRedrawnIff`, `ErasingDoesNotScrollBack`).
- A read that asks for less than a line still counts as a line read. It costs a line until the next
  reset and can leave a full terminal stuck (`LineDiscipline.SmallReadCostsALine`, `StuckIff`,
  `ZeroByteReadDeadlocks`).
- From slot 5 the scheduler skips slot 0, and that process starves
  (`Scheduling.TickMovesToNextLeafIff`, `RoundRobinIff`, `SlotFiveStarvesSlotZero`,
  `StarvationIsReachable`).
- `read_data` runs past the end of the file when offset plus length wraps in 32 bits, unless the
  file fills its last block; a negative count passed to `file_read` does that
  (`FileSystem.ReadMeetsPromiseIff`, `FileReadMeetsPromiseIff`, `NegativeCountReadsPastEnd`).
- `grep` does not print a matching line over 1024 bytes as one line, and never finds a pattern that
  is empty or starts with a byte of 128 or more (`GrepSpec.GrepIsLineFilterIff`, `LongLineFails`,
  `HighByteFails`, `EmptyPatternFails`).
- Process identifiers repeat once the 32-bit counter has gone round (`Pids.StepKeepsPidsIff`,
  `PidsRepeat`).
- `circular_buffer_put`, which nothing in the kernel calls, takes more than fits when its 32-bit sum
  wraps (`RingBuffer.CircularBuffer.Put`, `PutTakesTooMuch`).
- The entry point of a file of 5 to 27 bytes that starts like a program is partly what the slot held
  before (`Loader.EntryIsTheProgramsIff`).
- `parse_command` stores past its 128-byte fields for a longer name or longer arguments; a program
  can pass such a command, the keyboard cannot (`Command.ParseCommand`, `TypedCommandsFit`).

Elsewhere too the model follows the code and not its comments: `scroll_screen` moves 24 rows, not
the 79 of its comment (student-distrib/tty/terminal.c:130).

What is taken as given:

- Key handlers, system calls, interrupt handlers and the tail of each waiting read run with
  interrupts off. They are the atomic steps of the model.
- The state is the one after `kernel_run_first_program`, with PCB memory zero at boot.
- A kernel stack never grows into its PCB.
- Memory one PCB past the table, where the scan from slot 5 starts, does not look like a running
  process.
- What the loader and the directory lookup find is a parameter of an execute or open step.

## Model

| member | source | states |
|---|---|---|
| RingBuffer.CircularBuffer.constructor | student-distrib/lib/circular_buffer.c:12-19 | a buffer bound to its store is empty and keeps tail = head + length, wrapped |
| RingBuffer.CircularBuffer.Init | student-distrib/lib/circular_buffer.c:12-19 | re-initialising empties the buffer, whatever state it was in |
| RingBuffer.CircularBuffer.Clear | student-distrib/lib/circular_buffer.c:27-31 | clearing empties the buffer and keeps its store |
| RingBuffer.CircularBuffer.Put | student-distrib/lib/circular_buffer.c:43-62 | appends the longest prefix of the input that fits and returns its length, if and only if the length plus the input does not wrap in 32 bits to something that seems to fit; if it does, all is taken and what length, tail and store then are is stated |
| RingBuffer.CircularBuffer.CopyIn | student-distrib/lib/circular_buffer.c:52-58 | the loop appends bytes that fit, and in any case leaves the last of them just before tail, through any number of rounds |
| RingBuffer.PutTakesTooMuch | student-distrib/lib/circular_buffer.c:43-62 | with 1 byte of 128 buffered a put of 2^32 - 1 bytes takes all of them and leaves the buffer empty |
| RingBuffer.CircularBuffer.Get | student-distrib/lib/circular_buffer.c:74-93 | returns and removes the oldest bytes, in order, through any wrap-around |
| RingBuffer.CircularBuffer.Peek | student-distrib/lib/circular_buffer.c:105-124 | returns the oldest bytes, in order, and leaves the buffer as it is |
| RingBuffer.CircularBuffer.PutByte | student-distrib/lib/circular_buffer.c:135-147 | appends the byte if there is room, else changes nothing and returns 0 |
| RingBuffer.CircularBuffer.GetByte | student-distrib/lib/circular_buffer.c:158-170 | takes the oldest byte, or reports that there is none |
| RingBuffer.CircularBuffer.PeekEndByte | student-distrib/lib/circular_buffer.c:181-192 | the newest byte, or none |
| RingBuffer.CircularBuffer.RemoveEndByte | student-distrib/lib/circular_buffer.c:202-213 | drops the newest byte, or does nothing on an empty buffer |
| RingBuffer.CircularBuffer.Find | student-distrib/lib/circular_buffer.c:224-239 | the first index of a value in the buffered bytes, or -1 if it is not there |
| RingBuffer.WindowDrops | student-distrib/lib/circular_buffer.c:74-93 | advancing the head, with wrap-around, drops exactly that many of the oldest bytes |
| RingBuffer.WindowExtends | student-distrib/lib/circular_buffer.c:43-62 | storing at the tail extends the contents by that byte and disturbs no other |
| LineDiscipline.PressConserves | student-distrib/tty/terminal.c:146-230 | a key changes delivered plus buffered bytes exactly as it changes the editor's page |
| LineDiscipline.PressCounts | student-distrib/tty/terminal.c:146-230 | no key changes the difference between buffered newlines and the wake-up counter |
| LineDiscipline.PressKeepsWellFormed | student-distrib/tty/terminal.c:180-228 | the buffer stays within 128 bytes, full only with a newline at its end, and holds no backspace or NUL |
| LineDiscipline.ReadTakesLinePrefix | student-distrib/tty/terminal.c:503-508 | a read takes a prefix of the first line, and all of it exactly when what it returns ends a line |
| LineDiscipline.ChunkFits | student-distrib/tty/terminal.c:503-508 | a read of any size brings no NUL and at most 127 bytes of one line, besides its newline |
| LineDiscipline.StepKeepsInv | student-distrib/tty/terminal.c:146-230 | keys, reads of any size and resets keep conservation, the counter law and the shape of the buffer |
| LineDiscipline.RunKeepsInv | student-distrib/tty/terminal.c:483-515 | so does every history |
| LineDiscipline.DeliveryConserves | student-distrib/tty/terminal.c:483-515 | in every history the chunks read followed by the buffer are the editor's page: nothing lost, repeated or reordered |
| LineDiscipline.ReadIsShortIff | student-distrib/tty/terminal.c:503-508 | a read returns less than a line if and only if it asks for no more bytes than precede the first buffered newline |
| LineDiscipline.ShortIsSmallReads | student-distrib/tty/terminal.c:483-515 | along any history the short results are exactly the reads that were too small, counted from sizes and buffers alone |
| LineDiscipline.WakeupCounter | student-distrib/tty/terminal.c:497-511 | in every history newlines buffered = counter + reads since the last reset that asked for less than the line they found, so the counter never wraps and a woken reader finds a newline |
| LineDiscipline.LinesDelivered | student-distrib/tty/terminal.c:483-515 | the reads return exactly the editor's lines in order if and only if none asked for less than the line it found |
| LineDiscipline.LargeReadsAreNeverShort | student-distrib/tty/terminal.c:503-508 | reads of 128 bytes or more are never short |
| LineDiscipline.LineDisciplineRefinesEditor | student-distrib/tty/terminal.c:146-230 | with such reads the k-th read returns the k-th line of the editor, the counter equals the newlines buffered, and a full buffer never blocks |
| LineDiscipline.FullAndUncountedIsDeadlock | student-distrib/tty/terminal.c:497-499 | a full buffer with counter 0 stays so under every sequence of keys and reads |
| LineDiscipline.SmallReadCostsALine | student-distrib/tty/terminal.c:503-511 | after a read that was too small, until a reset, there is always one more complete line buffered than any reader will be woken for |
| LineDiscipline.StuckIff | student-distrib/tty/terminal.c:497-511 | in every reachable state no read ever returns again, whatever is typed, if and only if the buffer is full and as many reads since the last reset were too small as there are lines in it |
| LineDiscipline.ZeroByteReadDeadlocks | student-distrib/tty/terminal.c:503-511 | 127 letters, Enter and a read of zero bytes leave the terminal stuck |
| Screens.Put | student-distrib/tty/terminal.c:238-280 | output stays inside 80x25 unless it is a backspace in the home cell |
| Screens.PutIsType | student-distrib/tty/terminal.c:129-136 | one character on the screen, scrolling by moving memory, is one character on the endless paper, whose rows above the view never change |
| Screens.ScreenShowsPaper | student-distrib/tty/terminal.c:238-280 | after any output the screen is the last 25 rows of the paper, and it is left exactly by a backspace at the top of the view |
| TerminalModel.BackspacesLeaveScreenIff | student-distrib/tty/terminal.c:243-252 | n backspaces leave the screen if and only if fewer than n cells precede the cursor |
| TerminalModel.KeyIsSafe | student-distrib/tty/terminal.c:146-230 | a key other than Tab keeps as many cells before the cursor as there are bytes to erase |
| TerminalModel.ReadIsSafe | student-distrib/tty/terminal.c:483-515 | so does a read of any size |
| TerminalModel.ActionIsSafe | student-distrib/tty/terminal.c:358-368 | so do a redraw, a reset and output without backspaces, even across scrolling |
| TerminalModel.CursorSafety | student-distrib/tty/terminal.c:238-280 | from a fresh terminal no sequence of such actions ever leaves the screen |
| TerminalModel.KeyLeavesScreenIff | student-distrib/tty/terminal.c:146-230 | in any state a key, tab or not, leaves the screen if and only if it erases more cells than precede the cursor |
| TerminalModel.TabBreaksCursorSafety | student-distrib/tty/terminal.c:161-172 | with a tab it can: a b c d, Tab, Backspace, Backspace on a fresh terminal does |
| TerminalModel.LineRunsOnItsOwn | student-distrib/tty/terminal.c:146-230 | output, redrawing and scrolling never disturb the input side, so every result about histories holds of the whole terminal |
| TerminalModel.TerminalsAreIndependent | student-distrib/tty/terminal.c:88-109 | for every interleaving with switches each terminal ends as if it had run alone on its own actions |
| TerminalModel.SystemSafety | student-distrib/tty/terminal.c:238-280 | no interleaving of safe actions on three terminals ever leaves any screen |
| Typing.PrintableShowsItself | student-distrib/tty/terminal.c:214-223 | a printable key that is taken is appended to the buffer and shows itself at the cursor |
| Typing.EnterStartsRow | student-distrib/tty/terminal.c:176-189 | Enter is appended and counted, and starts a row |
| Typing.EraseTakesOneBack | student-distrib/tty/terminal.c:158-175 | erasing a byte that is not a tab takes one character off the screen |
| Typing.RefusedKeyChangesNothing | student-distrib/tty/terminal.c:146-230 | a key that is refused changes neither buffer nor screen |
| Typing.GlyphHolds | student-distrib/tty/terminal.c:119-123 | a cell holds the character in its low byte and white on black in its high byte |
| Typing.TypedTextShows | student-distrib/tty/terminal.c:238-280 | text typed on new paper stands there character by character where its rows and columns put it, with blanks after it |
| Typing.RedrawShowsBuffer | student-distrib/tty/terminal.c:358-368 | so what Ctrl+L draws is the last 25 rows of the buffered text |
| Typing.ScreenIsRedrawnIff | student-distrib/tty/terminal.c:146-230 | after any keys but tabs on a fresh terminal the screen is the one Ctrl+L would redraw, if and only if the text left takes as many rows as it ever did |
| Typing.ErasingDoesNotScrollBack | student-distrib/tty/terminal.c:129-136 | 24 times Enter, 80 letters and a Backspace leave a screen that is not |
| TerminalModel.TabBitIsBitTwo | student-distrib/tty/terminal.c:162 | the masked column is the third lowest bit of the column |
| DisplayDriver.Memmove | student-distrib/lib/lib.c:404-425 | overlapping ranges move as if through a copy, in both directions, and nothing else changes |
| DisplayDriver.MemsetWord | student-distrib/lib/lib.c:300-315 | exactly the given words are set |
| DisplayDriver.Memcpy | student-distrib/lib/lib.c:352-392 | exactly the given words are copied |
| DisplayDriver.Display.constructor | student-distrib/tty/terminal.c:16-24 | before the terminals are initialised: terminal 0 active; output pointers, hardware cursor and contents arbitrary |
| DisplayDriver.Display.MapTerminal | student-distrib/tty/terminal.c:416 | one more terminal's output goes where it should, and no earlier one's screen changes |
| DisplayDriver.Display.SetHardwareCursor | student-distrib/tty/terminal.c:65-80 | moves one terminal's cursor; the hardware cursor stays the active terminal's |
| DisplayDriver.Display.SwitchActiveTerminal | student-distrib/tty/terminal.c:88-109 | changes no terminal's logical screen or cursor, and brings the hardware cursor along |
| DisplayDriver.Display.VideoBufferPutc | student-distrib/tty/terminal.c:119-123 | one cell of the terminal's current memory |
| DisplayDriver.Display.ScrollScreen | student-distrib/tty/terminal.c:129-136 | rows 1 to 24 move up and a blank row is added, in place |
| DisplayDriver.Display.ClearTerminal | student-distrib/tty/terminal.c:296-304 | that terminal becomes blank with its cursor home; the others do not change |
| DisplayDriver.Display.PutcInternal | student-distrib/tty/terminal.c:238-280 | on the shared memory it is `Put` on that terminal's private screen and nothing on the others; it stores outside exactly for a backspace in the home cell |
| DisplayDriver.Display.PutBytes | student-distrib/tty/terminal.c:535-538 | the same for a whole string |
| TerminalDriver.LineInput.constructor | student-distrib/tty/terminal.c:394-404 | a terminal starts with an empty buffer and counter 0 |
| TerminalDriver.LineInput.Reset | student-distrib/tty/terminal.c:394-404 | a reset empties the buffer and the counter |
| TerminalDriver.LineInput.Erase | student-distrib/tty/terminal.c:150-159 | erases the last byte unless there is none or it is a newline, and says which |
| TerminalDriver.LineInput.Enter | student-distrib/tty/terminal.c:176-189 | stores a newline and counts it, unless the buffer is full |
| TerminalDriver.LineInput.Text | student-distrib/tty/terminal.c:190-228 | stores a tab or character only while a byte stays free for Enter |
| TerminalDriver.LineInput.EchoTab | student-distrib/tty/terminal.c:197-209 | the fall-through switch prints the stated number of spaces |
| TerminalDriver.LineInput.EraseTab | student-distrib/tty/terminal.c:161-172 | the fall-through switch prints the stated number of backspaces |
| TerminalDriver.LineInput.Press | student-distrib/tty/terminal.c:146-230 | the buffer and counter change, and the screen is sent, what the model of the key says |
| TerminalDriver.LineInput.TerminalRead | student-distrib/tty/terminal.c:501-514 | one line, or as much of it as was asked for, leaves the ring buffer |
| TerminalDriver.Driver.KeyboardPutc | student-distrib/tty/terminal.c:146-230 | one key is one action of that terminal's private model and no action of the others |
| TerminalDriver.Driver.RedrawTerminal | student-distrib/tty/terminal.c:358-368 | Ctrl+L clears and prints the buffered input again, without touching the buffer |
| TerminalDriver.Driver.ResetTerminalState | student-distrib/tty/terminal.c:394-404 | the terminal is as good as new, the others unchanged |
| TerminalDriver.Driver.MultipleTerminalInit | student-distrib/tty/terminal.c:410-424 | three fresh terminals with the hardware cursor in place, whatever the output pointers, screens and buffers were |
| TerminalDriver.Driver.TerminalRead | student-distrib/tty/terminal.c:483-515 | a read takes from that terminal's input alone and touches no screen |
| TerminalDriver.Driver.TerminalWrite | student-distrib/tty/terminal.c:527-542 | program output goes to that terminal alone |
| TerminalDriver.Driver.HandleSwitch | student-distrib/tty/terminal.c:88-109 | a switch changes only which terminal is on the display |
| TerminalDriver.Driver.Handle | student-distrib/tty/terminal.c:310-386 | every event is one step of the three-terminal system |
| TerminalDriver.Driver.Serve | student-distrib/tty/terminal.c:310-386 | every run of the driver is the run of three separate terminals, each on its own actions |
| TerminalDriver.Driver.BootAndServe | student-distrib/tty/terminal.c:310-424 | from boot no interleaving of safe actions and switches stores outside a screen, and each terminal ends as a fresh one given only its own actions |
| Process.RoundingFindsPcb | student-distrib/arch/x86/task.c:24-84 | rounding a stack pointer finds a slot's PCB if and only if it points into that slot's stack, used or not |
| Process.LowestFree | student-distrib/kernel/syscall.c:53-64 | the lowest free descriptor, or none exactly when all are taken |
| Process.FreeSlot | student-distrib/kernel/syscall.c:205-217 | the lowest free slot, or none exactly when all are taken |
| Chains.ArrivesAtFocus | student-distrib/arch/x86/task.c:52-57 | however the kernel is entered, the PCB found is the running process's |
| Chains.ParentIsBelow | student-distrib/kernel/syscall.c:234-241 | a running process's parent is the blocked one below it on its terminal's stack, and a root has none |
| Chains.StartKeepsInv | student-distrib/kernel/syscall.c:201-259 | a successful execute pushes the child on its parent's terminal and keeps every invariant |
| Chains.ExecuteKeepsInv | student-distrib/kernel/syscall.c:201-259 | a successful execute pushes; a failed one returns -1 and changes no PCB in use |
| Chains.RestartKeepsInv | student-distrib/arch/x86/task.c:212-229 | a root that halts is restarted in its place |
| Chains.ReturnKeepsInv | student-distrib/arch/x86/task.c:231-236 | a child that ends is popped and its parent runs again |
| Chains.ScheduleKeepsInv | student-distrib/drivers/pit.c:54-71 | a timer tick keeps stacks, agreement and saved registers |
| Chains.OpenKeepsFiles | student-distrib/kernel/syscall.c:47-96 | open returns -1 or the lowest free descriptor, at least 2, and keeps stdin, stdout and the RTC law |
| Chains.CloseKeepsFiles | student-distrib/kernel/syscall.c:106-122 | close keeps them too and refuses 0 and 1 |
| Chains.CloseFromCleans | student-distrib/arch/x86/task.c:204-208 | the close loop frees everything but stdin and stdout and turns the RTC off |
| Chains.HaltedIsClean | student-distrib/arch/x86/task.c:201-208 | so a halted process leaves a clean slot |
| Chains.CleanSlotStartsFresh | student-distrib/arch/x86/task.c:106-131 | opening stdin and stdout in a clean slot gives exactly descriptors 0 and 1 and no RTC |
| Chains.StepKeepsInv | student-distrib/kernel/syscall.c:201-259 | every step keeps the invariant, and the stacks change only by push and pop |
| Chains.BootHolds | student-distrib/arch/x86/task.c:139-188 | it holds after boot, with one shell per terminal |
| Chains.RunKeepsInv | student-distrib/drivers/pit.c:54-71 | it holds along every run |
| Chains.ReachableIsStacked | student-distrib/arch/x86/task.c:139-175 | in every reachable state the in-use PCBs are three stacks rooted at slots 0, 1, 2, exactly their tops run, and esp, cr3 and tss.esp0 name the same one |
| Contexts.UniqueChild | student-distrib/kernel/syscall.c:234-241 | no process has two children in use |
| Contexts.UnfocusedIsUntouched | student-distrib/drivers/pit.c:17-48 | no step but its own child's end changes a process that is not running, beyond its RTC countdown |
| Contexts.WaitingLasts | student-distrib/kernel/syscall.c:241-252 | a blocked parent keeps its saved registers and its child until that child ends |
| Contexts.ChildEnds | student-distrib/arch/x86/task.c:231-272 | the end of the child resumes the parent with its registers, directory and stack, and the status in eax |
| Contexts.ExecuteReturnsStatus | student-distrib/arch/x86/task.c:198-276 | execute, any run, and the step that resumes the parent: that step ends the very child started, and esp, ebp and status (0-255 or 256) are right |
| Contexts.PreemptedStays | student-distrib/drivers/pit.c:17-48 | while others run, a preempted process keeps the registers saved for it |
| Contexts.TickRestores | student-distrib/drivers/pit.c:31-47 | a tick that arrives at a process puts its saved registers back |
| Contexts.PreemptionRestoresContext | student-distrib/drivers/pit.c:17-48 | a tick away, any run of others, and the tick back restore exactly the registers saved |
| Pids.StepKeepsPidsIff | student-distrib/arch/x86/task.c:11-14 | a step keeps identifiers distinct if and only if it starts no process or the 32-bit counter does not stand at another process's identifier |
| Pids.ReachablePidsAreDistinct | student-distrib/arch/x86/task.c:11-14 | from boot on, no two processes in use share an identifier as long as at most 2^32 have been started |
| Pids.PidsRepeat | student-distrib/arch/x86/task.c:11-14 | a run from boot ends with two processes in use that share one |
| Contexts.NewOccupantStartsFresh | student-distrib/arch/x86/task.c:198-229 | whoever starts in a reused slot has exactly descriptors 0 and 1 and its RTC off |
| Contexts.DescriptorsInEveryRun | student-distrib/kernel/syscall.c:47-122 | in every reachable state open returns the lowest free descriptor, at least 2, and 0 and 1 cannot be closed |
| Scheduling.ScanFindsNext | student-distrib/drivers/pit.c:57-66 | the scan, which leaves out the slot before the current one, still finds the next leaf, except from slot 5 with slot 0 a leaf |
| Scheduling.TickGoesTo | student-distrib/drivers/pit.c:54-71 | where a tick goes from each leaf, in both cases |
| Scheduling.TickMovesToNextLeafIff | student-distrib/drivers/pit.c:54-71 | a tick moves to the cyclically next leaf if and only if it is not slot 5 that runs while slot 0 is a leaf |
| Scheduling.QuietRunCycles | student-distrib/drivers/pit.c:54-71 | the ticks of a run without starts and ends go round the leaves |
| Scheduling.RoundRobinIff | student-distrib/drivers/pit.c:54-71 | any three consecutive ticks of such a run serve all three terminals if and only if slots 0 and 5 are not both leaves |
| Scheduling.SlotFiveStarvesSlotZero | student-distrib/drivers/pit.c:60 | with slots 0 and 5 both leaves no tick of such a run goes to slot 0, wherever the processor is at the start |
| Scheduling.StarvationIsReachable | student-distrib/drivers/pit.c:60 | a run from boot reaches that case |
| RtcTiming.AcceptsPowersOfTwo | student-distrib/drivers/rtc.c:195-204 | the test of rtc_write accepts exactly the powers of two from 2 to 1024, each of which divides 1024 |
| RtcTiming.OthersKeepClock | student-distrib/drivers/rtc.c:70-77 | only RTC interrupts and the process's own calls move its countdown or interval |
| RtcTiming.StepPaysForReturn | student-distrib/drivers/rtc.c:160-182 | no step uses up more of a countdown than the interrupts it contains |
| RtcTiming.ReturnsArePaidFor | student-distrib/drivers/rtc.c:160-182 | along any run the reads that return are paid for by interrupts, an interval each |
| RtcTiming.ReadsAreSpaced | student-distrib/drivers/rtc.c:160-182 | k returns after an earlier one at an unchanged rate span at least k intervals of interrupts, under every interleaving |
| RtcTiming.CountdownIsExact | student-distrib/drivers/rtc.c:70-77 | left alone, a countdown loses exactly one per interrupt and stops at zero |
| Calls.RateIsStored | student-distrib/drivers/rtc.c:195-210 | a write of one of the ten rates to an open RTC returns 0 and stores the interval with interval * hertz = 1024, keeping the countdown; any other returns -1 and changes nothing |
| Calls.RateSpacesReads | student-distrib/drivers/rtc.c:160-210 | after an accepted rate every return but the first takes at least 1024 / hertz interrupts, under every interleaving |
| Calls.ReadWaitsForCountdown | student-distrib/drivers/rtc.c:160-182 | a read returns 0 exactly at the end of the countdown and restarts it; before that it changes nothing; without an open, enabled RTC it returns -1 |
| Calls.InterruptCountsDown | student-distrib/drivers/rtc.c:70-77 | an interrupt takes one off exactly the running countdowns of processes in use |
| Calls.ReachableClocksAreBounded | student-distrib/drivers/rtc.c:128-131 | in every run no interval or countdown exceeds 512 |
| Calls.OpenFailsIff | student-distrib/kernel/syscall.c:53-76 | open returns -1 if and only if no descriptor is free, nothing was found or its type is above 2, and then changes nothing |
| Calls.OpenGives | student-distrib/kernel/syscall.c:78-95 | the lowest free descriptor gets the RTC, directory or file operations for type 0, 1 or 2, the inode found and position 0; no other descriptor changes; an RTC is set to 512 |
| Calls.CloseGives | student-distrib/kernel/syscall.c:106-122 | close succeeds exactly for a descriptor from 2 to 7 in use, frees it alone, and turns the RTC off exactly when it was one |
| Calls.OpenThenClose | student-distrib/kernel/syscall.c:47-122 | open and close again leave every other descriptor, and for files and directories everything, as it was |
| Calls.SpawnGives | student-distrib/kernel/syscall.c:233-255 | the child starts at the entry point found, on its parent's terminal, with an empty kernel stack |
| Calls.StartsOnEmptyStack | student-distrib/arch/x86/task.c:224-228 | so do a root that halts and a process that runs for the first time |
| Calls.EntryPointsStay | student-distrib/arch/x86/task.c:216-228 | no other step changes where a slot's process starts |
| Calls.CallReturnsToCaller | student-distrib/kernel/syscall.c:47-271 | every call that starts and ends no process returns to its caller's registers, directory and stack |
| Calls.StatusGiven | student-distrib/kernel/syscall.c:269-271 | a parent is handed the low byte of its child's status, or 256 for an exception |
| Calls.EndGives | student-distrib/arch/x86/task.c:201-236 | a child that ends leaves a clean slot without a process, its parent runs with its saved registers, and no third process changes |
| Calls.AddressesNameSlots | student-distrib/arch/x86/task.c:40-84 | kernel stacks and page directories of different slots do not overlap, so stack pointer and directory each name one slot |
| Kernel.KernelState.constructor | student-distrib/arch/x86/task.c:139-188 | the two boot loops build the initial state of the machine |
| Kernel.KernelState.Scheduler | student-distrib/drivers/pit.c:54-71 | the handler makes the timer step |
| Kernel.KernelState.NextRunnable | student-distrib/drivers/pit.c:57-66 | the scan loop ends and finds the first runnable slot in scan order, or none |
| Kernel.KernelState.ContextSwitchTo | student-distrib/drivers/pit.c:17-48 | esp, cr3 and the TSS agree on the process switched to, with the registers once saved for it; the other's registers are saved, and no third process changes |
| Kernel.KernelState.RtcHandler | student-distrib/drivers/rtc.c:55-81 | the loop counts down exactly the processes in use with their RTC on |
| Kernel.KernelState.SyscallExecute | student-distrib/kernel/syscall.c:201-259 | makes the execute step, including both failures |
| Kernel.KernelState.FindFreeSlot | student-distrib/kernel/syscall.c:205-217 | the search loop finds the lowest free slot or none |
| Kernel.KernelState.HaltProgram | student-distrib/arch/x86/task.c:198-276 | makes the end-of-process step for roots and children |
| Kernel.KernelState.CloseAll | student-distrib/arch/x86/task.c:204-208 | the loop over descriptors is the recursive close |
| Kernel.KernelState.RestartRoot | student-distrib/arch/x86/task.c:212-229 | the root runs again in its place with exactly descriptors 0 and 1, agreed on by esp, cr3 and the TSS; no other process changes |
| Kernel.KernelState.ResumeParent | student-distrib/arch/x86/task.c:231-272 | the parent is agreed on by esp, cr3 and the TSS, with the registers it saved and the status in eax; the child's slot is clean, and no third process changes |
| Kernel.KernelState.CloseDescriptor | student-distrib/kernel/syscall.c:106-122 | all refusals, and the RTC going off with an RTC descriptor |
| Kernel.KernelState.SyscallClose | student-distrib/kernel/syscall.c:106-122 | makes the close step |
| Kernel.KernelState.SyscallOpen | student-distrib/kernel/syscall.c:47-96 | makes the open step, with rtc_open's 2 Hz |
| Kernel.KernelState.FindFreeDescriptor | student-distrib/kernel/syscall.c:53-64 | the search loop finds the lowest free descriptor or none |
| Kernel.KernelState.SyscallHalt | student-distrib/kernel/syscall.c:269-271 | makes the halt step with the low byte of the status |
| Kernel.KernelState.ExceptionHandler | student-distrib/arch/x86/interrupt.c:114-164 | ends a process that has a parent with status 256, and stops the machine in any other |
| Kernel.KernelState.SyscallRtcRead | student-distrib/drivers/rtc.c:160-182 | makes the RTC read step: refused, still waiting, or returning and rearming |
| Kernel.KernelState.SyscallRtcWrite | student-distrib/drivers/rtc.c:195-210 | makes the RTC write step with its three refusals |
| Kernel.KernelState.Handle | student-distrib/kernel/syscall.c:47-271 | every event that finds its process makes its step, or stops the machine |
| Kernel.ArrivedIsEntered | student-distrib/arch/x86/task.c:52-57 | in every state the kernel keeps, an event that arrives where the processor was left is handled, except an exception in a root shell |
| Kernel.KernelState.Serve | student-distrib/arch/x86/task.c:139-188 | from boot, whatever arrives, the kernel's own run is a run of the machine and keeps the three stacks, agreement, saved registers and descriptors; it ends early only at an exception in a root shell |
| FileSystem.ReadBlock | student-distrib/fs/ece391_fs.c:90-106 | copies min(length, rest of the block) bytes, or -1 for a bad block or offset, and touches nothing else |
| FileSystem.ChunkAdvances | student-distrib/fs/ece391_fs.c:141-160 | each turn of the copy loop goes to the next block boundary or to the end |
| FileSystem.LoopStopsAtEnd | student-distrib/fs/ece391_fs.c:141-160 | the loop stops exactly where the read ends |
| FileSystem.SliceIsOfConcatenation | student-distrib/fs/ece391_fs.c:132-162 | the bytes a read promises are that slice of the file's concatenated blocks |
| FileSystem.CopyBlocks | student-distrib/fs/ece391_fs.c:134-164 | the loop ends, fails exactly when a needed block does not exist, and else leaves that slice of the file in the buffer |
| FileSystem.ReadData | student-distrib/fs/ece391_fs.c:119-165 | -1 exactly for a bad inode or a missing block; else the slice of the concatenated blocks, and not a byte outside |
| FileSystem.ReadMeetsPromiseIff | student-distrib/fs/ece391_fs.c:119-165 | the count is min(length, file length - offset), 0 past the end, if and only if offset + length does not wrap, the offset is past the end, or the file fills its last block |
| FileSystem.FileReadMeetsPromiseIff | student-distrib/fs/fs.c:43-50 | file_read returns the promised count unless a negative count no larger than the position meets a file that does not fill its last block, and only then |
| FileSystem.NegativeCountReadsPastEnd | student-distrib/fs/fs.c:43-50 | in a file of 5000 bytes at position 1 a count of -1 is such a read: 8191 bytes where 4999 are left |
| FileSystem.ReadPastEnd | student-distrib/fs/fs.c:43-50 | that call returns 8191 |
| FileSystem.OpenFile.FileRead | student-distrib/fs/fs.c:43-50 | reads from the position, the count taken as unsigned, and advances it by what was read; a failure leaves it |
| FileSystem.ReadsConcatenate | student-distrib/fs/fs.c:43-50 | reads of any sizes concatenate to the part of the file asked for |
| FileSystem.ReadsUpToZeroAreTheFile | student-distrib/fs/fs.c:43-50 | reads up to the first 0 concatenate to the whole file |
| FileSystem.ReadInPieces | student-distrib/fs/fs.c:43-50 | successive file_read calls on an intact file return those reads |
| FileSystem.Cat | syscalls/ece391cat.c:21-28 | `cat` prints exactly the file; it fails exactly when the file cannot be read to its end, having printed everything before the read that fails |
| Directory.Strncmp | student-distrib/lib/lib.c:441-458 | zero if and only if the strings agree up to n characters or a common NUL; else the difference of the first signed characters that differ |
| Directory.Strncpy | student-distrib/lib/lib.c:490-505 | the string, cut at n and padded with NULs to n |
| Directory.ReadDentryByName | student-distrib/fs/ece391_fs.c:34-53 | the first entry whose name agrees, with its type, its inode and its name padded with NULs, or none exactly when there is none |
| Directory.ReadDentryByIndex | student-distrib/fs/ece391_fs.c:65-77 | the entry with its type, its inode and its name padded with NULs, or none past the last |
| Directory.ReadFileByName | student-distrib/fs/fs.c:78-86 | the first bytes of the file a name denotes; -1 exactly for an unknown name or an unreadable file |
| Directory.OpenDirectory.DirRead | student-distrib/fs/fs.c:125-136 | the next name, cut to the size asked for; 0 for ever once all have been read; a copy without bound exactly for a negative count before the end |
| Directory.ListedNameDenotesIff | student-distrib/fs/fs.c:125-136 | a listed name, NUL added, denotes its own entry if and only if no earlier entry has the same name, also at the full 32 bytes |
| Directory.LookUpListed | syscalls/ece391grep.c:84-94 | with distinct names looking up a listed name gives back its entry: type, inode and name |
| Directory.ListAndLookUp | syscalls/ece391ls.c:18-26 | the listing loop yields every entry once, in order, and each looks up to its own type, inode and name |
| Paging.WalkMeans | student-distrib/arch/x86/paging.c:26-212 | the page walk through a slot's structures is the stated translation, for every 32-bit address |
| Paging.UserReach | student-distrib/arch/x86/paging.c:135-212 | user mode reaches exactly 128-132 MB, onto the slot's own frame, and one 4 KB page at 132 MB |
| Paging.ProcessesAreIsolated | student-distrib/arch/x86/paging.c:114-133 | outside the video page no two processes reach the same memory, nor the kernel's page, nor the paging structures |
| Paging.FillDirectory | student-distrib/arch/x86/paging.c:26-151 | the loops leave exactly the stated entries present, whatever the blank ones held |
| Paging.FillVideoTable | student-distrib/arch/x86/paging.c:55-74 | only the page of video memory is present |
| Paging.FillProcessTable | student-distrib/arch/x86/paging.c:153-176 | only the first page is present, for user mode |
| Paging.FillSlot | student-distrib/arch/x86/paging.c:186-212 | one slot's directory and table are complete |
| Paging.PagingStructs.SetupProcessPaging | student-distrib/arch/x86/paging.c:186-212 | sets up one slot and leaves every other slot's address space as it was |
| Paging.PagingStructs.SetProcessVmemPage | student-distrib/arch/x86/paging.c:231-236 | moves one slot's video page and nothing else |
| Loader.BytesOfLittle32 | student-distrib/arch/x86/task.c:327 | the bytes of a number read by the loader, lowest first, are the bytes it was read from |
| Loader.Little32OfBytes | student-distrib/arch/x86/task.c:327 | any 32-bit number is read back from its bytes |
| Loader.StructsLieTogether | student-distrib/arch/x86/paging.c:6-12 | a slot's directory and table lie side by side from 124 MB on, apart from other slots' and above all program frames |
| Paging.EveryLevelPermits | student-distrib/arch/x86/paging.c:135-168 | the translation permits user mode and writing only if every level does |
| Loader.GetExecutableEntrypoint | student-distrib/arch/x86/task.c:318-330 | behind the ELF magic the number whose bytes, lowest first, are bytes 24 to 27, else 0 |
| Loader.LoadProgramIntoSlot | student-distrib/arch/x86/task.c:380-392 | 0 for an unknown, unreadable or too short file; else the file lies at the slot's load address, the entry point is the one in the header there, and nothing outside the slot's frame is written |
| Loader.EntryIsTheProgramsIff | student-distrib/arch/x86/task.c:318-330 | the entry point depends on the file alone if and only if the file has at least 28 bytes or no ELF magic; else on what the slot held before |
| Loader.StoresGoThrough | student-distrib/arch/x86/task.c:380-392 | under the directory of any process the loader's stores reach exactly the physical addresses they name |
| Loader.Loading.Load | student-distrib/arch/x86/task.c:380-392 | loading changes nothing any other process finds from 128 to 132 MB |
| Loader.Loading.SetUpChild | student-distrib/kernel/syscall.c:227-231 | setting up the child's tables makes it find there what lies at its load address, and changes nothing any other process finds |
| Loader.Loading.StartProgram | student-distrib/kernel/syscall.c:222-231 | a program stored through the running process's directory is, after the child's tables are set up, what the child finds at its link address byte by byte, the entry point is the one in its header, and no other process finds anything changed |
| GrepSpec.BufferSearchIsFilterIff | syscalls/ece391grep.c:21-60 | for any sensible choice of lines, the buffer search prints exactly the chosen lines if and only if each is at most 1024 bytes |
| GrepSpec.LinesMakeUpFile | syscalls/ece391grep.c:28-32 | the lines of a file hold no newline and, joined, are the file with its last line ended |
| GrepSpec.FindingIsSensible | syscalls/ece391grep.c:42-51 | searching for a pattern is such a choice |
| GrepSpec.GrepIsLineFilterIff | syscalls/ece391grep.c:21-60 | for every file and pattern the lines found are exactly the lines containing the pattern, in order, if and only if each of those is at most 1024 bytes and the pattern is not empty and starts with a byte below 128 |
| GrepSpec.UnfindableIsRightIff | syscalls/ece391grep.c:43-44 | for a pattern that is empty or starts with a byte of 128 or more, what is printed is right if and only if no line contains it |
| GrepSpec.LongLineFails | syscalls/ece391grep.c:21-60 | a matching line of 1025 bytes is not printed as it should be |
| GrepSpec.HighByteFails | syscalls/ece391grep.c:43-44 | the pattern 200 does not find the line 200 |
| GrepSpec.EmptyPatternFails | syscalls/ece391grep.c:43-44 | the empty pattern does not find the empty line |
| Grep.MatchAt | syscalls/ece391support.c:35-46 | equal exactly when the pattern, empty or not, occurs there before the NUL |
| Grep.CopyDown | syscalls/ece391support.c:14-17 | the overlapping copy moves the unfinished line down unharmed |
| Grep.LineEnd | syscalls/ece391grep.c:30-32 | the scan stops at the first newline or at the end of the data |
| Grep.SearchLine | syscalls/ece391grep.c:42-51 | true exactly when the line contains the pattern and its first byte is a positive signed char |
| Grep.PrintIfFound | syscalls/ece391grep.c:41-51 | four writes for a line that is found, none for another |
| Grep.RenderIsInjective | syscalls/ece391grep.c:45-48 | what is printed determines which lines were found |
| Grep.RenderedLine | syscalls/ece391grep.c:45-48 | for one line: the name, a colon, the line and a newline |
| Grep.TakeLine | syscalls/ece391grep.c:40-52 | printing a complete line leaves exactly the rest to be printed |
| Grep.TakeRest | syscalls/ece391grep.c:40-56 | so does printing a last line or a full buffer without a newline |
| Grep.CarryOver | syscalls/ece391grep.c:33-39 | carrying an unfinished line over leaves the text still to be searched as it was |
| Grep.SearchBuffer | syscalls/ece391grep.c:28-57 | the inner loop ends with room in the buffer and nothing lost or printed twice |
| Grep.ReadMore | syscalls/ece391grep.c:22-27 | a read into the free part of the buffer leaves the text still to be searched as it was; when it fails less than 1024 bytes of that are left |
| Grep.DoOneFile | syscalls/ece391grep.c:9-66 | fails exactly when the file cannot be read to its end, and else prints what a search of the whole file prints, wherever the reads fall; that is the lines containing the pattern if and only if they fit 1024 bytes and the pattern can be found. A failing search has printed what is due for all that can be read but less than its last 1024 bytes |
| Command.PartsRebuildCommandIff | student-distrib/arch/x86/task.c:342-370 | name, space and arguments rebuild the command if and only if it has a space |
| Command.ParseCommand | student-distrib/arch/x86/task.c:342-370 | the two fields hold the name and the arguments as C strings, if and only if both fit; else it stores past a field |
| Command.NameLength | student-distrib/arch/x86/task.c:348-355 | the loop stops at the first space or at the end |
| Command.GetArgs | student-distrib/kernel/syscall.c:282-301 | returns the arguments if and only if they fit with their NUL, the size taken as unsigned |
| Command.TypedCommandsFit | syscalls/ece391shell.c:16-27 | under every interleaving of keys, resets and reads of any size, every typed command is the line read without its newline, at most 127 bytes without NUL or newline, so both parts fit a 128-byte field |
| Command.TypedArgumentsReturn | student-distrib/kernel/syscall.c:282-301 | the arguments of any typed command come back through parsing and getargs, if and only if the buffer is large enough |
| Numbers.DigitsReadBack | student-distrib/lib/lib.c:165-198 | reading the digits gives back the value, in every radix from 2 to 36 |
| Numbers.DigitCharIsLookup | student-distrib/lib/lib.c:168 | digits are 0 to 9 and then A to Z |
| Numbers.Strrev | student-distrib/lib/lib.c:207-223 | reverses in place and touches nothing else |
| Numbers.WriteReversed | student-distrib/lib/lib.c:181-191 | the division loop writes the digits in reverse |
| Numbers.Itoa | student-distrib/lib/lib.c:165-198 | the buffer holds the digits, most significant first, and a NUL |
| Numbers.ItoaRoundTrip | student-distrib/lib/lib.c:165-198 | those are digits of the radix, have the value, and no leading zero except for 0 |
| Numbers.PrintHex | student-distrib/lib/lib.c:61-80 | `%#x` prints exactly eight hexadecimal digits with the value of its argument |

## Left out

- Port I/O, 8259 and PIT programming, GDT, IDT and TSS packing, boot and the assembly wrappers: hardware plumbing. A context switch assigns the registers that matter.
- TerminalModel.CursorSafety: tabs are ordinary bytes in the buffer and `Echo` prints what the code prints for them, but safety is stated for tab-free typing only, since it fails with tabs.
- DisplayDriver.Display.PutcInternal: a backspace in the home cell stores outside the terminal's memory; what that overwrites is not modelled, and no run is followed past it.
- DisplayDriver.Memmove: moves 16-bit words where the source moves their bytes; every call here moves whole words.
- `terminal_open` and `terminal_close`: no descriptor's operations reach them.
- Ctrl+1 to Ctrl+5, `rtc_test_enabled` and the exception screen: test hooks and printing.
- The PCB's `child` pointer: halt does not clear it and nothing relies on it.
- Kernel.KernelState.NextRunnable: the read one PCB past the table is taken to find no running process.
- Kernel.KernelState.RestartRoot: the reset of the root's terminal is modelled in TerminalDriver and not joined to this step.
- Kernel.KernelState.SyscallExecute: the program name and arguments written to the child's PCB are modelled in module Command, loading and page tables in module Loader.
- Pids.ReachablePidsAreDistinct: one direction for whole runs, since after 2^32 processes identifiers may or may not repeat; `Pids.StepKeepsPidsIff` is exact for each step.
- User writes through vidmap, and how fresh the 132 MB mapping is after a terminal switch or a halt.
- User-pointer range checks in the system calls.
- Directory.OpenDirectory.DirRead: what a copy with a negative count overwrites is not modelled.
- Directory.Strncpy: the two loop conditions are checked in the other order, since the source reads one byte past a full-length name before it stops; the result is the same.
- Command.ParseCommand: what a store past a field overwrites is not modelled.
- Grep.DoOneFile: files with a NUL in the part that can be read, and a stack byte `data[1024]` that happens to be a newline, are excluded; opening and closing the file are outside it.
- `get_file_size`, the other string and memory routines, and the remaining `printf` conversions: easy members.
- fish/, syscalls/ece391emulate.c, the keyboard maps and the other demonstration programs.
