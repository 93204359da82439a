# A verified model of a three-terminal kernel

A small x86 kernel runs three virtual terminals on one screen, schedules up to six processes on
them, and reads files from an image in memory. This project models its stateful parts in Dafny and
proves what they are for. `dafny verify dfyconfig.toml` checks everything.

| files | what they model |
|---|---|
| `Paper.dfy`, `EditLine.dfy`, `Desk.dfy`, `Keys.dfy` | terminals as a user sees them: an endless sheet with a window and an edit line; three of them at one desk; what each key does there, said by what is printed on it |
| `Screen.dfy`, `Console.dfy` | the kernel's globals: one live page, cursor and edit buffer, saved copies, and the two output paths; each handler is proved to refine the desk |
| `ProcessModel.dfy` | three stacks of processes under ticks, executes and halts |
| `Processes.dfy`, `Commands.dfy` | bitmap, control blocks, current pointer, directory entry and kernel stack pointer, proved to refine the stacks |
| `FileSystem.dfy`, `Directory.dfy`, `Descriptors.dfy` | the reader with block indirection, lookup, the descriptor table |
| `UserPrograms.dfy`, `Grep.dfy`, `TextLines.dfy` | cat, ls and grep as clients of the descriptor table |
| `Rtc.dfy` | the clock that each terminal divides for itself |
| `Blink.dfy` | the list of blinking characters in an array whose free marker is a data field |
| `Numbers.dfy` | `itoa` and the number formats of `printf` |
| `Bytes.dfy`, `Memory.dfy` | bytes, strings that end in NUL, buffers |

## How to read it

Stateful code is modelled by classes with the source's fields and by methods with its loops; each
method's contract gives the new state as a function of the old one, on a view (a `Desk`, a `Model`, a
`Device`, a list of `Blink`s), and the lemmas about whole runs are about that view. The two largest
views are refined by `Console.Console` and `Processes.Kernel`: every step of the view's `Step` function
is one of their methods.

## Assumptions

- A keyboard interrupt, a terminal write, a tick, a successful execute and a halt are one step each.
- A base shell's halt and its restart are one step, although the code enables interrupts just before
  the restart. A switch of the display is one step, although `switch_vid_page` enables interrupts again
  before the cursor and the edit buffers are exchanged (student-distrib/paging.c:98).
- The look of a waiting clock read at its count and the reset after it are one step. So are the end of the
  wait of `terminal_read` and its copy; if a tick came between them it would return 0
  (student-distrib/devices/terminal.c:86-88).
- No process runs before the first three ticks have started the three base shells, and `shell` is an
  executable file.
- Command fields of free control blocks are zero at boot. That they are zero later is proved.
- A file that is read is well-formed, except where a contract says otherwise: its blocks exist and its
  length fits its block list.
- The byte behind grep's buffer is not a newline at the start, and a file that grep reads holds no NUL.
- Where a prompt is claimed on terminals 2 and 3, their pages were blank at boot or they have been
  cleared (`Console.BootIsBlank`).

## Where the code does not do what it says

- A terminal that is put on display loses what its program prints up to the next key
  (`Desk.SwitchDropsOutput`); exactly what is lost is said by `Desk.WriteOverRuns`.
- A program that starts to read on another terminal takes the entered line away from the one on display
  (`Desk.ReadElsewhereCancels`); exactly when a line can still be read is said by `Desk.WakeOverRuns`.
- A process that reads the clock at a high rate does not return that often: of the interrupts that come
  while other terminals run, those beyond its bound are lost (`Rtc.PreemptedReaderFallsShort`,
  `Rtc.ReadsPerSecond`).
- `rtc_write` does not restart the count, so the first read after it can return early: the rate is kept
  if and only if nothing had been counted (`Rtc.WriteKeepsCount`).
- `read_data` adds offset and length in 32 bits, so a request whose end does not fit returns nothing
  (`FileSystem.DeliveredIsChunk`). Only direct callers in the kernel can ask for that: `sys_read` passes
  sizes below 2^31 and positions below 4 MB, and `sys_execute` the length of the file.
- grep cuts lines after every 1024 characters, and so misses or splits longer ones
  (`Grep.ExactOnShortLines`).
- A typed line of 125 characters loses its newline (`EditLine.ReadDeliversLine`).
- `sys_halt` moves the current pointer to the parent before its closing loop, so the parent's files are
  closed too (`Processes.Kernel.Halt`). For a base shell that is the base shell of the terminal before
  (`Processes.BaseShellReaches`).
- `sys_getargs` writes the whole argument, so it keeps within the number of bytes asked for if and only if
  the argument is not longer (`Commands.StaysWithinIff`).
- `sys_open` fails and leaves a free descriptor taken exactly when the name is longer than 32 bytes and its
  first 32 bytes are the whole name of a regular file (`Descriptors.FdTable.SysOpen`,
  `Descriptors.LongNameFound`, `Descriptors.LongNameLeaks`).
- `file_read` moves the position back by one if and only if the bytes asked for come to a bad block
  (`Descriptors.FdTable.FileRead`); at the start of a file it then seems to be at the end
  (`Descriptors.FailingRead`).
- ls never ends when the entry after the last seems to have a name (`UserPrograms.Ls`,
  `UserPrograms.FullDirectoryNeverEnds`). With 63 entries that is so unless the length of inode 0, whose
  lowest byte is the first one behind the directory, is a multiple of 256.
- A phase of a blink ends at once when its length is 0 or more than 0x8000 (`Blinking.PhaseLength`).
- The directory scan runs over as many entries as the directory has bytes
  (`Directory.MissNeedsCleanSlots`).
- The key with the scan code 0x37 types a NUL (`Keys.NulKey`).
- A blink at location 0 is put into the list and taken for free at the same time
  (`Blinking.BlinkList.Add`, `Blinking.SecondAtZeroLoops`).

## Model

| member | source | states |
|---|---|---|
| `Screen.ScreenShowsText` | student-distrib/lib.c:61-265 | a cleared screen on which any text is printed shows exactly the last 25 rows of the text wrapped at column 80; the cursor is behind the last row, and every cell from it on is blank |
| `Paper.PrintedTextDisplays` | student-distrib/lib.c:244-265 | the same on a sheet without end: nothing printed is ever lost or moved, and rows leave the window only at the top |
| `Paper.RowsOne` | student-distrib/lib.c:244-265 | printing one character at a time gives the rows of the whole text, which are defined by its paragraphs |
| `Paper.RowsGrow` | student-distrib/lib.c:244-265 | a newline or a carriage return starts a row, and any other character extends the last one, up to 80 |
| `Screen.PutDepicts` | student-distrib/lib.c:244-304 | printing on the screen, with its scrolling, is what printing on the endless sheet looks like through the window |
| `Screen.EraseDepicts` | student-distrib/lib.c:346-365 | likewise for erasing, also across the start of a row |
| `Screen.PutInRowIsPut` | student-distrib/lib.c:216-242 | above the bottom row, `putc` does what `putc_advanced` does exactly on line breaks and before the last column |
| `Screen.ScrollUp` | student-distrib/lib.c:373-418 | in place, the rows move up by one, and the last one becomes blank |
| `Console.Console.PutcAdvanced` | student-distrib/lib.c:244-265 | the live page and cursor follow the screen operation whose meaning `Screen.PutDepicts` gives |
| `Console.Console.PutcBackground` | student-distrib/lib.c:276-304 | the saved page and cursor of a terminal follow the same operation, and no other terminal changes |
| `Console.Console.Backspace` | student-distrib/lib.c:346-365 | the live page and cursor follow the erasing operation |
| `Console.Console.SwitchScreens` | student-distrib/paging.c:93-99 | the live page and cursor are saved, and the saved ones of the next terminal are live |
| `Console.Console.SwitchTo` | student-distrib/devices/keyboard.c:383-399 | all live globals are exchanged with saved ones, and what they stand for does not change for any of the three terminals |
| `Console.Console.TerminalSwitch` | student-distrib/devices/keyboard.c:362-404 | a switch key only changes what is on display, the flag of a waiting read and the output gate |
| `Console.Console.TerminalWrite` | student-distrib/devices/terminal.c:127-170 | a write by the running terminal prints its text on that terminal, in the foreground or in the background, and nowhere else, unless the output gate is closed |
| `Console.Console.PressClear` | student-distrib/devices/keyboard.c:196-207 | control and L blanks the terminal on display, prints the banner and forgets the line and the modifier keys |
| `Console.Console.PressErase` | student-distrib/devices/keyboard.c:210-262 | backspace takes back the last entry with all the cells of its echo |
| `Console.Console.PressEnter` | student-distrib/devices/keyboard.c:177-194 | enter ends the line, prints a line break and wakes the reader of the terminal on display; what that leaves on the sheet is `EditLine.EnteredLineOnSheet` |
| `Console.Console.FunctionKeyHandle` | student-distrib/devices/keyboard.c:275-351 | modifier keys, including the reset after too many presses of caps lock |
| `Console.Console.KeyboardInterrupt` | student-distrib/devices/keyboard.c:126-242 | every scan code in every state does to the three terminals what the key means, through all live and saved globals; what keys mean is said by `Keys` |
| `Console.Console.FinishRead` | student-distrib/devices/terminal.c:95-111 | a read that goes on returns the entered line, copies zeros behind it as far as was asked, and leaves the edit buffer all zero |
| `Console.Console.constructor` | student-distrib/devices/terminal.c:29-52 | boot stands for three terminals, the first one cleared and on display, the others showing what is in their pages |
| `Console.BootIsBlank` | student-distrib/paging.c:57-60 | a terminal is blank from the cursor on at boot if and only if its page was blank |
| `Desk.ChangedOnlyByItsOps` | student-distrib/devices/keyboard.c:126-242 | over every run of keys, writes, reads, switches and ticks, a terminal is changed by the operations that reach it and by nothing else |
| `Desk.OutputStaysAtHome` | student-distrib/devices/terminal.c:143-161 | over every run, whatever programs print on the other terminals makes no difference to a terminal, to any edit line, or to the state of keyboard, display and scheduler |
| `Desk.GateOverRuns` | student-distrib/devices/keyboard.c:383-400 | over every run, the output gate is open if and only if the last key left the display alone, or it was open at first and no key has been pressed |
| `Desk.WriteOverRuns` | student-distrib/devices/terminal.c:143-161 | over every run, what a program prints appears if and only if its terminal is in the background, or it is a long task, or the gate is open in that sense; otherwise it is lost |
| `Desk.SwitchDropsOutput` | student-distrib/devices/keyboard.c:383-400 | putting a terminal on display makes it lose what its program prints next, which without the switch would be printed |
| `Desk.WakeOverRuns` | student-distrib/devices/terminal.c:80-81 | over every run, an entered line can still be read if and only if since then no program on any terminal has started to read while this terminal was on display, and it has not gone off the display |
| `Desk.ReadElsewhereCancels` | student-distrib/devices/terminal.c:80-81 | a program that starts to read on another terminal makes the read on the displayed one wait again |
| `Desk.KeyIsLocal` | student-distrib/devices/keyboard.c:126-242 | a key reaches only the terminal on display, as one editing operation, if any |
| `Keys.PrintingKey` | student-distrib/devices/keyboard.c:172-237 | every key with a character on it adds that character to the line and to the sheet of the terminal on display, in the row of the keyboard and with the shift that say which; nothing else changes |
| `Keys.LetterOverRuns` | student-distrib/devices/keyboard.c:173-237 | at any moment of any run a letter key adds its capital, 65 to 90, if and only if shift was pressed last or caps lock is on, and its small letter otherwise |
| `Keys.LetterKey` | student-distrib/devices/keyboard.c:173-237 | the same for one key |
| `Keys.DigitKey` | student-distrib/devices/keyboard.c:173-237 | a digit key adds its digit if and only if shift is not held |
| `Keys.TableIsLayout` | student-distrib/devices/keyboard.c:36-95 | the table of scan codes has the characters of the four rows of keys, with a capital above each letter |
| `Keys.FullLine` | student-distrib/devices/keyboard.c:163-170 | on a full line such keys do nothing |
| `Keys.IgnoredKey` | student-distrib/devices/keyboard.c:152-172 | nothing is typed by keys outside the table, nor by any while the program on display takes no typing |
| `Keys.BackspaceKey` | student-distrib/devices/keyboard.c:210-218 | backspace takes the last entry off the line |
| `Keys.TabKeyTypes` | student-distrib/devices/keyboard.c:219-229 | tab adds one entry and prints four blanks |
| `Keys.ControlL` | student-distrib/devices/keyboard.c:196-207 | control and L leave exactly the rows of the banner on the screen, an empty line and no lock held |
| `Keys.NulKey` | student-distrib/devices/keyboard.c:80-95 | the key at 0x37 types a NUL |
| `Keys.HeldOverRuns` | student-distrib/devices/keyboard.c:275-351 | over every run, shift, control or alt is held if and only if the last event about it was a press |
| `Keys.CapsOverRuns` | student-distrib/devices/keyboard.c:304-313 | over every run, after its release caps lock is on if and only if it has been pressed an odd number of times |
| `Keys.OverflowForgets` | student-distrib/devices/keyboard.c:328-330 | one press of caps lock too many empties the line and leaves the sheet |
| `Keys.DisplayStep` | student-distrib/devices/keyboard.c:362-382 | alt and F1, F2 or F3 put the first, second or third terminal on display, and nothing else does |
| `Keys.EnterOverRuns` | student-distrib/devices/keyboard.c:177-194 | a line edited and entered at any moment of any run stands on the sheet as if printed, and what is printed next starts a row |
| `Keys.ReadTakesOwnLine` | student-distrib/devices/terminal.c:80-111 | a read takes only the line of the terminal that is on display and runs its reader |
| `Keys.RoundRobin` | student-distrib/scheduling.c:19 | the terminals run in the order 1, 2, 3 |
| `Desk.SwitchKeepsTerminals` | student-distrib/devices/keyboard.c:362-404 | a switch of the display changes none of the three terminals |
| `Desk.WriteIsTheSameEverywhere` | student-distrib/devices/terminal.c:143-161 | a write changes its own terminal in the same way on display and in the background, and no other terminal |
| `Desk.TypedKeysAreNoBreaks` | student-distrib/devices/keyboard.c:219-237 | no run ever types a line break or a tab character as an ordinary character |
| `Desk.EditingOverRuns` | student-distrib/devices/keyboard.c:196-262 | at any moment of any run at which a line is empty the cursor is a prompt, and while only editing keys reach the terminal from then on, the line is the stack of what was typed and its echo stands behind the prompt |
| `Desk.LineDeliveredOverRuns` | student-distrib/devices/terminal.c:95-111 | a line entered at any moment of any run, and read before anything more is typed, whatever is printed and whatever keys are released meanwhile, is delivered with its newline if and only if it does not have 125 characters or fewer than 126 bytes are asked for |
| `Desk.ReleaseTypesNothing` | student-distrib/devices/keyboard.c:126-172 | releasing a key types nothing on any terminal |
| `EditLine.EnteredLineStays` | student-distrib/devices/keyboard.c:177-217 | an entered line stays in the edit buffer through output, ignored keys and backspaces |
| `Desk.NoStrayNewlineOverRuns` | student-distrib/devices/keyboard.c:177-194 | slot 125 of an edit buffer never holds a newline, over every run |
| `EditLine.EditingIsAStack` | student-distrib/devices/keyboard.c:196-262 | from a prompt, any run of characters, tabs, backspaces and ignored keys edits the line as a stack of at most 127 entries whose echo is what stands between prompt and cursor, across wraps and scrolling; an emptied line has its cursor at the prompt |
| `EditLine.EnteredLineOnSheet` | student-distrib/devices/keyboard.c:177-194 | after editing and Enter the sheet holds the text before, the echo of the line and a line break |
| `EditLine.EnteredLineDisplays` | student-distrib/devices/keyboard.c:177-194 | a line typed without corrections and entered is displayed as if it had been printed with a newline |
| `EditLine.BlankAheadEver` | student-distrib/lib.c:244-265 | whatever is printed, typed, entered or cleared, a terminal that was blank from the cursor on, or has been cleared, is blank from the cursor on |
| `EditLine.EmptyLineIsPrompt` | student-distrib/devices/keyboard.c:177-194 | so an empty line can be edited where the cursor is, whatever was printed before |
| `EditLine.PromptOnCleared` | student-distrib/devices/keyboard.c:196-206 | after any text on a cleared screen the cursor is a prompt from which a line can be edited |
| `EditLine.ReadDeliversLine` | student-distrib/devices/terminal.c:95-111 | a read gives the first bytes of the entered line and its newline if and only if the line does not have 125 characters or fewer than 126 bytes are asked for |
| `EditLine.NoStrayNewlineEver` | student-distrib/devices/keyboard.c:177-194 | the slot that a line of 125 characters leaves out never holds a newline, over any operations |
| `ProcessModel.Run` | student-distrib/scheduling.c:17-48 | over every run of ticks, executes and halts the three stacks stay disjoint, and once booted every terminal keeps its base shell under its own number |
| `ProcessModel.AtMostSix` | student-distrib/syscall.c:101-110 | the heights of the stacks sum to at most six, and the search for an id fails exactly when they sum to six |
| `ProcessModel.BaseShellKeepsItsId` | student-distrib/syscall.c:499-502 | when a base shell has halted, the first free id is its own, whatever the other terminals run |
| `ProcessModel.TickSound` | student-distrib/scheduling.c:17-48 | a tick keeps the stacks sound, and the third one completes the boot |
| `ProcessModel.ExecuteSound` | student-distrib/syscall.c:314-433 | an execute keeps the stacks sound |
| `ProcessModel.HaltSound` | student-distrib/syscall.c:447-515 | a halt, with the restart of a base shell, keeps the stacks sound |
| `ProcessModel.BootIds` | student-distrib/scheduling.c:22-29 | while booting, the first free id is the number of the next terminal |
| `ProcessModel.HaltUndoesExecute` | student-distrib/syscall.c:447-515 | halting the process that was just started restores the whole state, and tells where the kernel was |
| `ProcessModel.HaltOfBaseShell` | student-distrib/syscall.c:499-502 | when a base shell ends, the program shell runs alone on its terminal under its old id, and nothing else changes |
| `ProcessModel.HaltOfChild` | student-distrib/syscall.c:447-515 | when another process ends, the one below is on top, and nothing else changes |
| `ProcessModel.BootTick` | student-distrib/scheduling.c:22-29 | while booting, a tick starts the program shell on the next terminal under its number |
| `ProcessModel.ExecuteWhenFull` | student-distrib/syscall.c:345-349 | with six processes an execute changes nothing |
| `ProcessModel.ResumedWhereSwitchedOut` | student-distrib/scheduling.c:42-78 | a terminal that is switched out goes on two ticks later, not before, exactly where it was, on the same stack, whatever the others execute and halt meanwhile |
| `ProcessModel.RoundRobin` | student-distrib/scheduling.c:19 | after any run, which terminal runs depends only on the number of ticks modulo three |
| `ProcessModel.QuietRunIsLocal` | student-distrib/syscall.c:314-515 | between two ticks only the stack of the running terminal changes |
| `Processes.MemoryIsDisjoint` | student-distrib/syscall.c:544-575 | distinct processes have distinct image frames, none of them the kernel's, and disjoint kernel blocks inside the kernel's frame, with the stack at the top and the control block at the bottom |
| `Processes.FramesInOrder` | student-distrib/syscall.c:544-575 | the frames of the processes lie directly behind the kernel, in the order of their ids |
| `Processes.ParentsLeadToBase` | student-distrib/syscall.c:345-390 | following parent pointers k times from the top process leads to the process k places below it, without a cycle, and the base shell is the only one without a parent |
| `Processes.Kernel.RunningKernel` | student-distrib/syscall.c:345-418 | in every reachable state after boot: the bitmap marks exactly the ids on the stacks, the task counters are the heights and sum to at most six, every terminal points to the top of its stack with its base shell at the bottom, and the process that runs has its own frame mapped and its own kernel stack in place, apart from all others |
| `Processes.BooksPush` | student-distrib/syscall.c:376-395 | entering a process keeps bitmap, control blocks and stacks in agreement |
| `Processes.BooksPop` | student-distrib/syscall.c:455-481 | removing one keeps them in agreement, and its control block is cleared again |
| `Processes.SwitchedOut` | student-distrib/scheduling.c:42-48 | switching out keeps everything in agreement, and each waiting terminal's block says where it goes on |
| `Processes.Kernel.constructor` | student-distrib/syscall.c:101-123 | cleared memory at boot stands for three empty stacks |
| `Processes.Kernel.FindPid` | student-distrib/syscall.c:101-110 | the scan of the bitmap finds the lowest id that is on no stack, or 0 |
| `Processes.Kernel.StartProcess` | student-distrib/syscall.c:345-418 | pushes a process with the lowest free id, makes it current, maps its frame and sets its kernel stack |
| `Processes.Kernel.Execute` | student-distrib/syscall.c:314-433 | execute refines the push on the running stack, with its two failures, which change nothing |
| `Processes.Kernel.TakeDown` | student-distrib/syscall.c:455-484 | pops the current process, maps its parent again, and clears its control block; closes all its descriptors and descriptors 2 to 7 of exactly its parent, or of the base shell of the terminal before when it is one itself; changes no other block |
| `Processes.Kernel.Halt` | student-distrib/syscall.c:447-515 | halt refines the pop, or the restart of a base shell under its old id, passes on the status and the saved context, and changes the blocks of exactly the two processes named above, also when it restarts |
| `Processes.BaseShellReaches` | student-distrib/syscall.c:458-470 | the process whose descriptors a halting base shell closes is the base shell of the terminal before its own; only the first terminal's closes its own |
| `Processes.ClosedIsSame` | student-distrib/syscall.c:466-470 | the flags of the parent survive a halt if and only if none of its descriptors 2 to 7 was in use |
| `Processes.Kernel.Tick` | student-distrib/scheduling.c:17-78 | the scheduler refines the turn to the next terminal, and goes on at the context saved for it |
| `Processes.Kernel.BootCheck` | student-distrib/scheduling.c:22 | the scheduler's test on three bits tells exactly whether all base shells run |
| `Processes.Kernel.GetArgs` | student-distrib/syscall.c:626-650 | the running process is given the argument of the command that it was started with, over every reuse of its slot |
| `Commands.StaysWithinIff` | student-distrib/syscall.c:633-648 | nothing behind the bytes asked for is written, in any buffer, if and only if the argument is not longer than that |
| `Commands.ProgramAndArgument` | student-distrib/syscall.c:526-536 | a command made of a program and an argument gives back both |
| `Commands.ProgramAlone` | student-distrib/syscall.c:626-650 | a command without an argument gives back its program and nothing else |
| `Commands.LongProgramIsCut` | student-distrib/syscall.c:526-536 | a program name of more than 32 bytes is cut |
| `Commands.ArgumentEndsAtSpace` | student-distrib/syscall.c:635-648 | an argument ends at the next space |
| `Commands.ParseArg` | student-distrib/syscall.c:526-536 | although it copies past the end of the command, the name that it yields is the program |
| `Commands.CopyArgument` | student-distrib/syscall.c:635-648 | the loops over a padded command give exactly the argument and zero the rest |
| `FileSystem.ReadData` | student-distrib/file_system.c:116-169 | in place, the requested bytes of the file go to the buffer and nothing else changes, for every position relative to block boundaries; a bad block number stops the copy in front of it |
| `FileSystem.DeliveredIsChunk` | student-distrib/file_system.c:116-145 | the requested piece of the file is returned if and only if the end of the request fits in 32 bits or the request starts past the end of the file |
| `FileSystem.WholeRead` | student-distrib/file_system.c:116-169 | reading through the block list agrees with the flat content of a well-formed file |
| `FileSystem.CopyRun` | student-distrib/file_system.c:146-165 | one block's share of a read |
| `Descriptors.FdTable.FileRead` | student-distrib/file_system.c:200-219 | returns the next piece of the file, zeroes the rest of the request, and advances by what was returned; it fails, and the position moves back by one, if and only if the bytes asked for come to a bad block |
| `Descriptors.FailingRead` | student-distrib/file_system.c:210-218 | an image on which a read fails at the start of a file, after which the position is so large that the file seems to be at its end |
| `Descriptors.FdTable.DirRead` | student-distrib/file_system.c:269-285 | returns the next name, also when it fills all 32 bytes, and advances up to the last entry |
| `Descriptors.FdTable.SysOpen` | student-distrib/syscall.c:153-215 | takes the lowest free descriptor for the inode and the type of the first entry of that name, at position 0; also in the failure on long names, which leaves it taken |
| `Descriptors.LongNameFound` | student-distrib/syscall.c:188-211 | a longer name is found, and so leaves a descriptor taken, if and only if its first 32 bytes are the whole name of an entry |
| `Descriptors.LongNameLeaks` | student-distrib/syscall.c:188-211 | an image and a name for which that happens |
| `Descriptors.FdTable.SysClose` | student-distrib/syscall.c:226-242 | frees exactly one descriptor in use, or fails |
| `Descriptors.FdTable.SysRead` | student-distrib/syscall.c:254-274 | dispatches to the kind of file, with all failures; on the clock it returns 0 and changes nothing |
| `Descriptors.RunReads` | student-distrib/syscall.c:254-274 | any run of reads through a descriptor table with several open files returns on each file what the same run of calls returns, and leaves the table at the positions after it |
| `Descriptors.InterleavedReads` | student-distrib/file_system.c:200-219 | however reads on several open files are interleaved and whatever their sizes, each file returns consecutive pieces of its own content; `Descriptors.RunReads` is the table that does it |
| `Descriptors.ZeroMeansAllRead` | student-distrib/file_system.c:200-219 | a read returns zero bytes exactly when the reads before it have returned the whole file |
| `Directory.ReadDentryByName` | student-distrib/file_system.c:50-71 | finds the first entry whose name agrees with the given one as far as 32 bytes, and gives the type and the inode of that entry |
| `Directory.Strncmp` | student-distrib/lib.c:718-732 | is zero exactly when the strings agree as far as n bytes |
| `Directory.LookupListed` | student-distrib/file_system.c:50-71 | looking up a name that agrees with a listed one gives the type and the inode of that entry, also for names of 32 bytes |
| `Directory.MissNeedsCleanSlots` | student-distrib/file_system.c:59 | a name that no entry has is reported missing if and only if the memory behind the directory does not look like such an entry |
| `UserPrograms.Cat` | syscalls/ece391cat.c:6-32 | terminates, and prints the whole file of the entry that has the name |
| `UserPrograms.Ls` | syscalls/ece391ls.c:8-29 | ends if and only if what is read as the entry after the last has no name, and has then printed every name once, in order; otherwise it prints that name for ever |
| `UserPrograms.ListingLines` | syscalls/ece391ls.c:8-29 | the lines of what it prints are the names of the entries, in order |
| `UserPrograms.DirectoryEnds` | student-distrib/file_system.c:269-285 | reading a directory comes to an end if and only if what is read as the entry after the last has no name |
| `UserPrograms.FullDirectoryNeverEnds` | student-distrib/file_system.c:269-285 | a directory of 63 entries on which it does not |
| `Grep.DoOneFile` | syscalls/ece391grep.c:9-66 | terminates, and prints exactly one line for each piece of the whole file that contains the pattern, in order: the file name, a colon and the piece, however the reads cut the lines |
| `Grep.ExactOnShortLines` | syscalls/ece391grep.c:24-60 | these are exactly the lines that contain the pattern if and only if no such line is longer than 1024 characters |
| `Grep.PiecesByLine` | syscalls/ece391grep.c:24-60 | a piece never reaches beyond its line |
| `Grep.CutJoins` | syscalls/ece391grep.c:24-60 | the pieces of a line make it up again, and all but the last have 1024 characters |
| `Grep.ReportLines` | syscalls/ece391grep.c:45-48 | what is printed for some lines is one line for each, with the file name and a colon before it |
| `TextLines.UnlinesOfLines` | syscalls/ece391grep.c:31-57 | the lines of a text make it up again |
| `Grep.ScanBuffer` | syscalls/ece391grep.c:31-57 | one round over the buffer reports its complete lines and moves the incomplete one down |
| `Grep.Refill` | syscalls/ece391grep.c:24-29 | after a read the buffer continues the line that was moved down, up to the end of the file or of the buffer |
| `Grep.Search` | syscalls/ece391grep.c:44-53 | finds the pattern exactly if it occurs in the line |
| `Rtc.InterruptsAreConserved` | student-distrib/devices/RTC.c:97-176 | in every run in which a terminal only reads, interrupts are used for returns, lost, or left for the next return, and nothing else |
| `Rtc.RateLimit` | student-distrib/devices/RTC.c:163-176 | n returns of a read at a rate need at least n * 1024 / rate interrupts, counting those before the first read, whatever the other terminals do |
| `Rtc.RateKeptIffReset` | student-distrib/devices/RTC.c:173-174 | from here on no run goes faster than the rate if and only if the count is 0 |
| `Rtc.WriteKeepsCount` | student-distrib/devices/RTC.c:212 | setting a rate makes sure of it if and only if nothing had been counted |
| `Rtc.EarlyReturn` | student-distrib/devices/RTC.c:212 | from any other count there is a run that returns too early |
| `Rtc.OpenThenWrite` | student-distrib/devices/RTC.c:148-149 | opening the clock and setting any rate at once makes sure of it |
| `Rtc.OpenSetsLowestRate` | student-distrib/devices/RTC.c:148-149 | opening the clock alone sets and keeps the rate 2 |
| `Rtc.FirstReturn` | student-distrib/devices/RTC.c:148-176 | the first read after an open is due after 512 interrupts, and not before |
| `Rtc.ReturnThenRead` | student-distrib/devices/RTC.c:174 | so does any return of a read |
| `Rtc.ReadsPerSecond` | student-distrib/devices/RTC.c:163-176 | a reader that starts at 0 returns at most as often per 1024 interrupts as its rate says, and exactly that often if and only if no interrupt is lost or left over |
| `Rtc.NothingLost` | student-distrib/devices/RTC.c:101-103 | no interrupt is lost if and only if none comes while the terminal is already due |
| `Rtc.AwayLoses` | student-distrib/scheduling.c:17-48 | while other terminals run, all interrupts are lost but those still needed for the next return |
| `Rtc.PreemptedReaderFallsShort` | student-distrib/scheduling.c:17-48 | a reader returns less often than its rate says as soon as more interrupts than its bound come while other terminals run |
| `Rtc.SecondAway` | student-distrib/scheduling.c:17-48 | a possible run in which that happens, at every rate |
| `Rtc.TerminalsAreIndependent` | student-distrib/devices/RTC.c:97-216 | a terminal's counter and bound depend only on the interrupts and its own calls, over every run |
| `Rtc.AcceptsRates` | student-distrib/devices/RTC.c:202-209 | the bit test and the range test accept exactly the powers of two from 2 to 1024 |
| `Rtc.BoundOfRate` | student-distrib/devices/RTC.c:212 | the bound of an accepted rate multiplied by the rate is 1024 |
| `Rtc.Driver.RtcWrite` | student-distrib/devices/RTC.c:185-216 | sets the bound of an accepted rate, and refuses everything else without effect |
| `Rtc.Driver.RtcRead` | student-distrib/devices/RTC.c:163-176 | under every schedule, the busy loop ends at the first look at which its terminal runs and is due, and not before |
| `Rtc.Driver.OnInterrupt` | student-distrib/devices/RTC.c:97-109 | counts one interrupt for each terminal, in 32 bits |
| `Rtc.Driver.RtcOpen` | student-distrib/devices/RTC.c:139-152 | sets the lowest rate and starts counting from zero |
| `Blinking.BlinkList.Add` | fish/blink.S:105-184 | the blink becomes the first of the list, which stays well-formed if and only if the location is not 0; fails exactly for locations off the screen and when all 2000 nodes are in use |
| `Blinking.BlinkList.Remove` | fish/blink.S:187-237 | takes out exactly one blink, the one added last at the location, and keeps all others in order; at every other location the same blink is found as before; the search for the predecessor ends |
| `Blinking.BlinkList.Find` | fish/blink.S:302-379 | gives the blink added last at the location, if there is one |
| `Blinking.BlinkList.Tasklet` | fish/blink.S:49-99 | every blink ticks exactly once, and the screen shows what the list draws in order |
| `Blinking.BlinkList.Sync` | fish/blink.S:240-300 | the second blink gets the lengths and the phase of the first, and keeps its characters and its location |
| `Blinking.BlinkList.Malloc` | fish/fish.c:160-170 | gives the first free node, or none if and only if the list has 2000 nodes |
| `Blinking.InsertLinksIff` | fish/fish.c:160-175 | a blink at location 0 breaks the list, any other does not |
| `Blinking.SecondAtZeroLoops` | fish/fish.c:164 | two blinks at location 0 make a node its own successor |
| `Blinking.UnlinkLinks` | fish/blink.S:206-222 | taking a node out leaves a list without a cycle over the other nodes in use |
| `Blinking.UsedAndFree` | fish/fish.c:160-175 | nodes in use and free nodes are always 2000 together |
| `Blinking.RemoveUndoesAdd` | fish/blink.S:159-217 | removing a blink that was just added brings back the list before it |
| `Blinking.BlinkPeriod` | fish/blink.S:64-86 | whatever its lengths, a blink shows its characters in turn, each for the duration of its length, and then repeats |
| `Blinking.PhaseLength` | fish/blink.S:64-66 | a phase takes as many ticks as it says if and only if that is from 1 to 0x8000; otherwise it ends at the first tick |
| `Blinking.StayInPhase` | fish/blink.S:267-275 | blinks that have been synchronised tick alike for ever |
| `Blinking.DrawnAt` | fish/blink.S:66-86 | a cell shows the character of the last blink in the list that expires there, and other cells do not change |
| `Numbers.Itoa` | student-distrib/lib.c:452-481 | terminates, and leaves the digits of the number, reversed in place, in the buffer and nothing else |
| `Numbers.DigitsOfTable` | student-distrib/lib.c:453 | the digits are those of the lookup table |
| `Numbers.DigitsDenote` | student-distrib/lib.c:470-475 | the text is a numeral in the radix, and parses back to the number |
| `Numbers.DigitsAreUnique` | student-distrib/lib.c:470-475 | it is the only numeral of that number without a zero in front |
| `Numbers.NoLeadingZero` | student-distrib/lib.c:458-475 | it has no zero in front, except for the number 0 |
| `Numbers.StrRev` | student-distrib/lib.c:488-501 | reverses the string at an index in place |
| `Numbers.AlternateHex` | student-distrib/lib.c:123-142 | prints exactly eight digits that denote the number |
| `Numbers.SignedText` | student-distrib/lib.c:155-168 | prints every 32-bit number: a numeral that denotes it, or a minus sign and a numeral that denotes its opposite |

## Left out

- Attribute bytes of the screen, and the coloured output: scrolling moves characters only.
- The kernel's own messages, except for the banner after control and L, which is modelled as printed.
- Port I/O, page flushes, interrupt controller and descriptor tables, boot code, and the assembly that enters or resumes a process: the model has the context, the frame and the stack pointer that it uses.
- The contents of descriptors in `Processes`, which has only their flags; the whole table is `Descriptors.FdTable`.
- NULL pointers passed by programs.
- Which program locks the keyboard or passes the output gate: the flags that decide it are parameters `locked` and `longTask`, because any program can change them by reading a line that says "exit".
- Processes.Kernel.Execute: takes the names of the executable files as a set, instead of looking a name up and comparing four bytes of the file; an image that cannot be loaded after its memory is mapped is not modelled.
- The copy of the command in `sys_execute` is one byte too short for its NUL (student-distrib/syscall.c:321-327), which the model does not see.
- Processes.Kernel.Execute: a command has at most 127 bytes, because the command field has no room for more.
- Processes.Kernel.GetArgs: the buffer has room for the argument, and a command has at most 126 bytes, because with 127 the loop can run past the field.
- Processes.Kernel.GetArgs: does not say what happens in a process that has closed its keyboard, since closing descriptor 0 always fails.
- Descriptors.FdTable.SysRead: reading the keyboard through descriptor 0 is `Console.Console.FinishRead`, and waiting for the clock is `Rtc.Driver.RtcRead`.
- Descriptors.FdTable.SysOpen: what the clock's open hook does is `Rtc.Driver.RtcOpen`.
- FileSystem.ReadData: an inode whose length exceeds its 1023 blocks, for which the code takes block numbers from the memory behind the inode.
- Commands.CopyArgument: a command of 127 bytes, on which the loops can leave the field.
- UserPrograms.Cat: a directory or the clock as the file; a full 32-byte name has no certain length there.
- Descriptors.FdTable.DirRead: the length of a name of exactly 32 bytes is only known to be at least 32 when more is asked for, because the code looks for a NUL behind the field.
- Grep.DoOneFile: files that hold a NUL byte, directories and the clock; and the listing of the directory around it, which is `UserPrograms.Ls` without printing.
- Console.Console.FinishRead: the count of shells that "exit" decrements.
- Programming the physical clock, `log_2` and its messages; it runs at 1024 Hz.
- Blinking.BlinkList.Sync: the character drawn is stated as the code draws it, which is always the second one.
- Blinking.BlinkList.Add: the copy of the structure from the user, which never fails.
- `sys_vidmap`, signals, the user interface, pingpong, counter and the other user programs, and the emulation layer for Linux.
