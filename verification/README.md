# A model of the hot-swapping debugger

The repository is a debugger that sets breakpoints in a running C program, replaces single functions of it
by freshly compiled ones without stopping it for good, and looks up symbols in its memory. This project
models the parts that change or read another process and proves what they promise.

| files | model of |
|---|---|
| `Memory`, `Machine`, `Ptrace` | bytes and words, the traced machine, and word-wise access to it |
| `Breakpoints`, `DebugRun`, `LiveSession`, `TameX86`, `Detach`, `Debugger` | breakpoints as traps laid over native memory, whole debugged runs, leaving the target, and the debugger's own code |
| `X86`, `Stub`, `Lockstep`, `HotSwap`, `LibcBreakpoint`, `LiveInjection`, `InterruptedInjection` | the injected assembly as bytes and as instructions, its stops, the injector, injection with breakpoints set, and Ctrl-C during it |
| `RemoteRead`, `Elf`, `Pdlsym`, `ElfLayout`, `ElfImage`, `SymbolTable`, `WrappingImage` | the remote symbol resolver, the ELF layouts, and the round trip between them |
| `Lifecycle`, `LoaderTrace` | which libraries are recorded, open, and jumped into |
| `LineReader`, `CText`, `CLines`, `Isolator`, `Extraction`, `Scanner`, `Units`, `Prelude`, `Isolation`, `Aggregates`, `FunctionNames`, `BrokenLines` | cutting one function out of a C source |

Each loop or object of the program is a method or class whose contract equates its result with a
specification function; the lemmas are about those functions. The instruction set is a parameter (`Isa`):
the breakpoint results hold for every processor, and only the injection results fix the instructions that
the stubs use. What the text functions find is stated once more in literal characters (`CLines`,
`Prelude`), and the images that the resolver reads are written with the gABI's own numbers. What libc
does is a parameter too; malloc, dlopen and dlclose run as one step. Those calls that the stubs make have
to conform to sections 3.2.1 to 3.2.3 of the System V AMD64 ABI and to stay inside memory of their own;
nothing is asked of libc in other states. A routine is one step as long as the code that it executes is
intact; with a trap in that code it runs instruction by instruction.

## Assumptions that callers can check

* Breakpoints: all addresses that are ever set lie at least 8 bytes apart (`Separated`). Where that
  matters it is stated as an if-and-only-if for arbitrary addresses.
* A debugged program is `Tame` for those addresses: it neither reads those words as data nor runs into the
  middle of them, nor writes them. `Tame` is a statement about the native program alone; for instructions
  of the modelled kinds `TameX86` derives it from their bytes and operands.
* `pdlopen`: the stub's place, stack, libc's code and data, buffers and the replaced function do not
  overlap, and the compiled stub is the assembly text, its final `ret`, and padding to whole words (`Ready`).
  In the states in which the stub enters them malloc and dlopen conform, and malloc returns null or memory
  apart from all these (`GoodCalls`).
* `pdlopen`'s start offset lands on byte 0 or 1 of the stub. For offset 2 on a running target this is the
  rewinding by the kernel that the source describes (hot_swap.cpp:207-211).

## Where the code does not do what it is for

* `ptrace_read` takes a word of 64 one-bits for an error and exits (`Ptrace.Tracee.PtraceRead`). `pdlopen`
  has changed the registers by then and leaves them so (`HotSwap.Pdlopen`).
* Breakpoints closer than 8 bytes store or re-arm words with each other's traps. `SetKeepsOverlayIff`,
  `ResetKeepsOverlayIff` and `EveryOrderIsExactIff` say exactly when.
* Ctrl-C while the target executes leaves every trap in it: ptrace refuses the first write and the debugger
  exits (`Sighandler`). On a stopped target rip is left one too high between the report of a trap and
  `at_trap = 1`, and one too low from inside the reset until the next resume (`DetachFromLoopIff`,
  `DetachDuringReset`). A trap that is written but not in the map yet stays (`DetachDuringSetIff`).
  `DetachIsNativeIff` has the exact condition for all these moments.
* Ctrl-C during an injection never leaves the program in a state of its own: it goes on inside the stub,
  into a trap for which no debugger is left (`DetachDuringInjection`, `DetachedAtFirstStop`).
* A breakpoint inside malloc or dlopen stops the stub there, and `pdlopen` goes on as if it had returned
  (`BreakpointInMalloc`, `BreakpointInDlopen`).
* A checkpoint that was never recorded holds whatever registers the stack held; the model passes them in.
* A restart returns to the registers of a recorded hit, not to its memory.
* `pdlopen` makes libc calls with a misaligned stack: malloc's and dlopen's entries differ by 8 bytes
  (`NeverAlignedTwice`). The buffer is never freed, and free would be called on the library handle
  (`ThirdStop`).
* The stubs push into the 128 bytes below rsp, which section 3.2.2 of the ABI leaves to the interrupted
  function. The topmost words that `pdlopen` leaves there are in its contract; that they were the same
  before (`RedZoneKeptIff`) is necessary for it to do no harm, and the routines' frames lie below them.
* A breakpoint whose word meets the trampoline is lost, or corrupts the trampoline later, unless the bytes
  happen to be the same (`InjectUnderPtrace`, `FirstByteDoesNotFit`).
* Started at byte 2, `pdlopen`'s stub destroys a word of the target's stack, while `pdlclose`'s does not
  (`ByteTwoOverwritesStackTop`, `EjectPhase`).
* The trampoline is written as 16 bytes, of which 12 are code, so four bytes behind it become arbitrary.
* A library that is closed for a replacement that cannot be opened is lost: the old trampoline leads
  nowhere and the function can never be injected again (`StaleForEver`).
* `pdlsym` finds nothing in the calling process (`NothingFoundInSelf`), and its table bound can be passed
  by a product that wraps around (`BoundsAreSafeIff`, `AnswersFromOutside`).
* A function whose compilation failed is recorded with a null path, and injecting it kills the debugger
  (`InjectFunc`).
* `getline_split_by` takes byte 0xFF for the end of the file (`LinesPartitionIff`). The function copied
  goes on past its closing brace when more braces follow on that line (`StopsAtClosingBraceIff`).
* The name of the function is looked for anywhere on the line: asked for `foo`, the program isolates
  `bar(int foo)`, `xfoo()` or `foo2()`, and it misses `foobar_t foo()` (`NamesIffDeclares`,
  `ParameterIsMisread`).
* A typedef, enum or struct takes in what follows it up to a closing brace and a semicolon, so after
  `typedef int t;` the next function is not found (`SwallowedIff`).
* A declaration broken before its parenthesis loses its first line and has a later one twice
  (`WrittenIff`), and braces on swallowed lines are never counted (`DepthIsSumIff`).

## Model

| member | source | states |
|---|---|---|
| `Memory.ReadWrite64` | libs/ptrace.c:118-154 | A word stored is the word loaded, for every 64-bit value and address, and stores to disjoint words do not interfere |
| `Memory.WriteRead64` | libs/ptrace.c:118-154 | Storing a word that was read elsewhere puts exactly its 8 bytes there and changes no other |
| `Ptrace.Tracee.PtraceRead` | libs/ptrace.c:118-136 | Reads exactly the length rounded up to 8-byte words; gives up (the debugger exits) exactly when a word is unmapped or all ones, or the target is executing |
| `Ptrace.Tracee.PtraceWrite` | libs/ptrace.c:138-154 | Changes exactly the rounded-up range; on an unmapped word only the words before it are written, on an executing target none |
| `Ptrace.ReadableIff` | libs/ptrace.c:118-136 | A read succeeds if and only if every word that begins before its end is mapped and has another value than 2^64 - 1 |
| `Ptrace.ReachableIff` | libs/ptrace.c:138-154 | A write succeeds if and only if every such word is mapped |
| `Ptrace.Tracee.RestoreStates` | libs/ptrace.c:178-182 | Memory range and registers are the saved ones |
| `Ptrace.Tracee.PtraceCont` | libs/ptrace.c:47-66 | Runs to the first `int3`, leaves rip one past it and the target stopped; the states passed are appended to the trace |
| `Ptrace.RestoreAfterOverwrite` | libs/ptrace.c:178-182 | Read a range, change it at will, restore it: memory is the old one |
| `Breakpoints.SetPlants` | ddb.cpp:302-319 | Setting a breakpoint adds 0xCC at that address to live memory and changes no other byte, also next to or at an existing one |
| `Breakpoints.SetAgainIsIdentity` | ddb.cpp:302-319 | A second set at an address changes neither memory nor the stored word |
| `Breakpoints.WordReadIsNativeIff` | ddb.cpp:304-312 | The stored word is the native one if and only if no trap shows in the seven bytes above |
| `Breakpoints.SetKeepsOverlayIff` | ddb.cpp:302-319 | The overlay (live = native with 0xCC at the keys, stored words native) survives a set if and only if no key hides in the seven bytes above |
| `Breakpoints.LiftTraps` | ddb.cpp:343-344 | Putting a stored word back lifts the traps of all keys inside the word and no others |
| `Breakpoints.Rearm` | ddb.cpp:349-350 | Arming again plants the trap of that address only |
| `Breakpoints.PlantWithoutAbove` | ddb.cpp:343-350 | The lost neighbours make a difference if and only if a key lies above |
| `DebugRun.ResetIsOneStep` | ddb.cpp:330-351 | Restore, single-step, re-arm equals one native step under the traps that remain |
| `DebugRun.ResetKeepsOverlayIff` | ddb.cpp:330-351 | A reset keeps the overlay if and only if no key lies in the seven bytes above |
| `DebugRun.SimIsProjection` | ddb.cpp:486-519 | A native state simulated by a run is the run with trap bytes replaced and rip rewound at a hit |
| `DebugRun.TickSimulates` | ddb.cpp:487-489 | Running freely is one native step, or none when it hits a planted trap |
| `DebugRun.HandleSimulates` | ddb.cpp:503-519 | The SIGTRAP branch always succeeds and is one native step; a recorded hit stores the native registers |
| `DebugRun.EventSimulates` | ddb.cpp:486-519 | Each event of the main loop, from the report of a trap to the next resume, is matched by 0 or 1 native steps |
| `TameX86.MissingIsTame` | ddb.cpp:342-350 | An instruction of the modelled kinds whose bytes and stack operand miss the breakpoints' words is tame: traps make no difference to it, and it leaves the words alone |
| `DebugRun.Transparency` | ddb.cpp:486-519 | For every sequence of ticks, hits, resets and new breakpoints the debugged run projects onto the native run at the counted step |
| `DebugRun.EveryNativeStepIsReached` | ddb.cpp:486-519 | Conversely every native step is reached by some such sequence: debugging never blocks the program |
| `DebugRun.OverlayInvariant` | ddb.cpp:211-225 | The overlay holds after every interleaving of running, set, reset and restart |
| `DebugRun.CheckpointPersists` | ddb.cpp:330-341 | A checkpoint stays as recorded until a hit at its address is recorded again |
| `DebugRun.RecordedHit` | ddb.cpp:337-341 | Handling a hit with `r` records the native registers at the hit |
| `DebugRun.RestartReturnsToRecordedHit` | ddb.cpp:211-225 | After any run, restart puts back the registers of the recorded hit and leaves memory as it is |
| `LiveSession.SessionIsTransparent` | ddb.cpp:164-200 | Transparency of whole sessions: whatever is run, hit, set and injected, the debugged program is the native one patched at the same moments, under the traps |
| `LiveSession.InjectionIsEvent` | ddb.cpp:192-194 | An injection that keeps an overlay is such an event |
| `Detach.RestoreIsNative` | ddb.cpp:90-93 | With stored words native, restoring in any order of the map gives native memory, whichever traps are lifted already |
| `Detach.DetachLeaves` | ddb.cpp:83-94 | From any stopped state that shows native memory under some traps, with rip off by some distance: exactly the traps that a stored word covers are lifted, and `at_trap` takes one off rip |
| `Detach.DetachIsNativeIff` | ddb.cpp:83-94 | So the native state is left if and only if `at_trap` is what rip is off by and every trap left was the program's own |
| `Detach.DetachFromLoopIff` | ddb.cpp:486-519 | Between the debugger's operations: if and only if `at_trap` agrees with a planted trap having been hit and not been reset |
| `Detach.DetachDuringSetIff` | ddb.cpp:308-318 | Inside a set, after the trap is written and before the map knows it: if and only if another stored word covers the address or the program has its own trap there |
| `Detach.DetachDuringReset` | ddb.cpp:342-351 | Inside a reset: exact until the registers are set, then rip is one too low, of the old state or of the next one |
| `Detach.SetManyWord` | ddb.cpp:302-319 | The stored word of the i-th breakpoint is the native word with the traps set before it |
| `Detach.ReverseOrderIsExact` | ddb.cpp:83-94 | Restoring in reverse order of setting is exact even when the words overlap |
| `Detach.EveryOrderIsExactIff` | ddb.cpp:90-93 | Every order of the map is exact if and only if no address was set within seven bytes below an earlier one |
| `Detach.RestoreCovers` | ddb.cpp:90-93 | Whatever memory is, restoring in any order makes it native under the stored words and changes no other byte |
| `Debugger.Debugger.SetBreakpointAtAddr` | ddb.cpp:302-319 | The new session is that of the set, or nothing has changed and the debugger exits |
| `Debugger.Debugger.ResetBreakpoint` | ddb.cpp:330-351 | The new session is that of the reset |
| `Debugger.Debugger.HandleSigtrap` | ddb.cpp:503-519 | `at_trap` is set and the session is that of the handled trap |
| `Debugger.Debugger.Resume` | ddb.cpp:487-488 | `at_trap` is 0 and the target executes |
| `Debugger.Debugger.RestartCurrFrame` | ddb.cpp:211-225 | With a checkpoint its registers, memory unchanged, or exit if the word at its rip cannot be read; without one nothing, the unwinder goes on |
| `Debugger.Debugger.RestoreBreakpoints` | ddb.cpp:83-94 | On a stopped target every stored word is put back once, in some order of the map, and rip rewound if `at_trap`; on an executing one nothing happens and the first access exits |
| `Debugger.Debugger.Sighandler` | ddb.cpp:100-105 | At any moment: an executing target keeps every trap and the debugger exits; on a stopped one exactly the stored words are written back. Between and inside the debugger's operations it is left as `DetachLeaves` says, so in its native state under exactly that condition |
| `Stub.StubIsFaithful` | hot_swap.cpp:20-162 | The bytes of both stubs decode to the assembly, at every offset and base, with `int3` at each stop |
| `Lockstep.CallMalloc` | hot_swap.cpp:41-52 | On the way the only libc routine entered is malloc, once, with the requested length in rdi |
| `Lockstep.FirstStop` | hot_swap.cpp:30-55 | From the entry (byte 0 or 1) to the first stop exactly malloc is entered; rax is its result, and free's and dlopen's addresses are on top of the stack. Of malloc it asks only that this one call conforms to the ABI |
| `Lockstep.SecondStop` | hot_swap.cpp:58-75 | To the second stop exactly dlopen is entered, with the rax of the first as its buffer and 1; rax is its result |
| `Lockstep.ThirdStop` | hot_swap.cpp:84-99 | To the third stop no routine is entered; it is before `callq *%rbx`, with rbx = free and rdi dlopen's handle, not the buffer |
| `Lockstep.FirstStopFromByteTwo` | hot_swap.cpp:30-55 | Started at byte 2 the stub still stops after malloc, but the old stack top lies where free's address should |
| `Lockstep.EjectStop` | hot_swap.cpp:137-162 | The eject stub enters exactly dlclose, once, with the handle, and stops with its result in rax |
| `Lockstep.EjectStopFromByteTwo` | hot_swap.cpp:137-162 | From byte 2, where nothing was pushed, the stub does the same and the popped word of the target's stack is still there |
| `HotSwap.TrampolineDecodes` | hot_swap.cpp:314-318 | 48 b8 imm64 ff e0 decodes to movabs and jmp with exactly that target, for every 64-bit address |
| `HotSwap.TrampolineJumps` | hot_swap.cpp:314-326 | Two steps from the old function reach the new one with only rax changed |
| `HotSwap.NewCodeIsStub` | hot_swap.cpp:243-249 | The compiled function with its RET (0xC3) overwritten is the stub with 0xCC there |
| `HotSwap.OrigFuncIsSite` | hot_swap.cpp:322-326 | The address computed from the stub's place is the mapping's start plus the symbol's value, in 64-bit arithmetic |
| `HotSwap.InstallStub` | hot_swap.cpp:236-253 | Backs up the stub's place and writes the stub there; exits exactly when the place cannot be read |
| `HotSwap.PhaseOne` | hot_swap.cpp:253-265 | Installed and started, the target reaches the first stop; changes stay in the stub's place, libc's data and the stack below rsp |
| `HotSwap.PhaseTwo` | hot_swap.cpp:284-293 | dlopen sees the path in the buffer; changes stay within the frame |
| `HotSwap.PhaseThree` | hot_swap.cpp:324-337 | The trampoline is intact at the third stop |
| `HotSwap.RestoredFrame` | libs/ptrace.c:178-182 | Restoring the stub's place leaves changes only outside it |
| `HotSwap.Pdlopen` | hot_swap.cpp:185-347 | On every exit all registers are as before and memory changed only below rsp, in libc's data, in the buffer that malloc returned and, on success, in 16 bytes at the function: the trampoline and what lay behind its buffer. That is at the start of the executable's mapping plus the symbol's value for a dynamic symbol, at its value for a static one. Of all states the target passes through, those entering libc are malloc(len) and then dlopen(buffer with path, 1), and no others; the words left right below rsp are free, dlopen and r9, or free and r9, or rbx and r9, by how far it came; it exits instead exactly when the stub's place, one word into the mapping, cannot be read. Of libc it asks that the two calls made conform to the ABI |
| `HotSwap.RedZoneKeptIff` | hot_swap.cpp:30-104 | These words of the red zone are as before if and only if they held those very words, which is necessary for the 128 bytes to be |
| `HotSwap.NeverAlignedTwice` | hot_swap.cpp:41-75 | malloc and dlopen are never both entered with the stack alignment that section 3.2.2 of the AMD64 ABI asks for |
| `HotSwap.ByteTwoOverwritesStackTop` | hot_swap.cpp:84-99 | Truly started at byte 2, the stub overwrites the word at the old stack top with rbx and nothing else above; the stack is intact if and only if that word was rbx |
| `HotSwap.EjectPhase` | hot_swap.cpp:382-391 | The eject stub returns dlclose's result from byte 0 and from byte 2, within the same frame |
| `HotSwap.Pdlclose` | hot_swap.cpp:349-399 | Registers restored, memory changed only below rsp and in libc's data, exactly one libc routine entered, dlclose(handle), and 1 returned exactly when its result is not 0 |
| `LiveInjection.OverlayUnderChange` | ddb.cpp:164-200 | A change away from all breakpoint words is the same change of native memory under the overlay |
| `LiveInjection.OverlayIff` | ddb.cpp:164-200 | After any change of memory some native memory is under the overlay if and only if no byte of a breakpoint's word changed |
| `LiveInjection.InjectUnderPtrace` | ddb.cpp:192-194 | After an injection, with armed breakpoints anywhere but in libc's code and the memory it writes: the overlay holds if and only if nothing was patched or the trampoline's 16 bytes are what the words of breakpoints near the function held; then native memory changed only where `pdlopen` may; on the exit it is unchanged |
| `LibcBreakpoint.CodeIntactIff` | hot_swap.cpp:41-75 | The code of a libc routine is intact under traps if and only if none stands in it |
| `LibcBreakpoint.StopsInside` | ddb.cpp:308-309 | A routine with a trap in its way stops there: no instruction behind it is executed |
| `LibcBreakpoint.InstalledUnderTrap` | hot_swap.cpp:236-253 | Installed over memory with an armed breakpoint in one routine, the stub is about to run, and only that routine's code is broken |
| `LibcBreakpoint.BreakpointInMalloc` | hot_swap.cpp:258-265 | With a breakpoint that malloc comes to, from the state in which the stub really enters it, the first continue stops one byte into that instruction and not at the stub's own trap, and the rax taken for the buffer is the one of that moment; nothing is asked of what malloc would return |
| `LibcBreakpoint.BreakpointInDlopen` | hot_swap.cpp:288-293 | With a breakpoint that dlopen comes to and malloc does not execute, from the installation on: the first stop is the stub's own, and with the path stored the second is one byte into that instruction, with the rax of that moment taken for the library |
| `LiveInjection.FirstByteDoesNotFit` | hot_swap.cpp:314-326 | A breakpoint whose word reaches the function's first byte does not fit unless that byte is 0x48 |
| `LiveInjection.TrampolineTakesTrap` | hot_swap.cpp:314-326 | A breakpoint on the replaced function itself never fits |
| `InterruptedInjection.DetachDuringInjection` | ddb.cpp:83-105 | Ctrl-C at a stop of the stub: registers stay, so rip is inside the stub and the state is none of the program's own; memory is native but for what the injection has written outside breakpoints' words |
| `InterruptedInjection.StillInStub` | ddb.cpp:83-105 | If no breakpoint's word meets the stub or its stack, the detached target is still in the middle of the stub |
| `InterruptedInjection.DetachedAtFirstStop` | ddb.cpp:83-105 | Left at the first stop, it calls dlopen with the buffer as it is and runs into the stub's second trap with no debugger attached |
| `InterruptedInjection.DetachedAtSecondStop` | ddb.cpp:83-105 | Left at the second stop, it runs into the stub's third trap without entering libc |
| `RemoteRead.ReadN` | libs/pdlsym.c:36-73 | Copies exactly the bytes at every alignment and length, peeks only at aligned words that overlap the range, fails exactly when one is missing |
| `RemoteRead.Ndaer` | libs/pdlsym.c:75-88 | The same bytes in reverse |
| `RemoteRead.ReaderDecodesFileOrder` | libs/pdlsym.c:131-133 | The reader chosen by `data.buf[0] & elf->data` decodes the file's byte order on a host of either order |
| `RemoteRead.ReadNumber` | libs/pdlsym.c:95-109 | The number that the file's bytes stand for, 0 if they cannot be read |
| `RemoteRead.ReadByte` | libs/pdlsym.c:90-94 | The byte, 0 if it cannot be read |
| `Elf.ReadDynamic` | libs/pdlsym.c:194-213 | The loop's four values are those of the scan up to DT_NULL or the section's end |
| `Elf.ReadHeader` | libs/pdlsym.c:166-215 | One program header: skipped, failed, counted or scanned |
| `Elf.LoadElf` | libs/pdlsym.c:117-223 | Finds the tables of the image, or fails, as the scan of all headers does |
| `ElfLayout.EncodedHolds` | libs/pdlsym.c:95-115 | A record encoded in either byte order reads back field by field |
| `ElfLayout.EhdrRead` | libs/pdlsym.c:134-165 | 0x10, 0x18+W, 0x18+3W+6 and 0x18+3W+8 are e_type, e_phoff, e_phentsize and e_phnum of ELF32 and ELF64 (gABI chapter 4) |
| `ElfLayout.PhdrRead` | libs/pdlsym.c:169-178 | 0, W, 2W, 4W, 5W are p_type, p_offset, p_vaddr, p_filesz, p_memsz of both classes although p_flags moves (gABI chapter 5) |
| `ElfLayout.EntryRead` | libs/pdlsym.c:198-200 | 0 and W are d_tag and d_un of both classes |
| `ElfLayout.SymRead` | libs/pdlsym.c:228-232 | 0 and W are st_name and st_value of both classes although the record is ordered differently |
| `ElfImage.SectionRead` | libs/pdlsym.c:194-213 | On an encoded section the scan yields the values before DT_NULL that the tags 5, 10, 6 and 11 have last, as the gABI numbers string table, its size, symbol table and entry size |
| `ElfImage.HeadersScanned` | libs/pdlsym.c:161-222 | On an encoded table the scan fails if and only if some header of type 1 or 2 is bad, else it counts those of type 1 and merges the sections of type 2 |
| `ElfImage.LoadRoundTrip` | libs/pdlsym.c:117-223 | For every image, class, byte order and host: `loadelf` returns exactly what the logical file says, with the gABI's numbers for types and tags |
| `ElfImage.IdentIff` | libs/pdlsym.c:126-129 | In any memory the identification is accepted if and only if it is 7F 45 4C 46, a class and byte order of 1 or 2, and version 1 |
| `ElfImage.OnlyElfIsLoaded` | libs/pdlsym.c:126-223 | Whatever is loaded from any memory is identified so, and has none of its four values 0 |
| `Pdlsym.ReadSym` | libs/pdlsym.c:225-239 | The symbol record at an index, or the end of the table |
| `Pdlsym.SameName` | libs/pdlsym.c:254-260 | True exactly when the NUL-terminated query stands there inside the string table |
| `Pdlsym.Pdlsym` | libs/pdlsym.c:241-269 | The loops compute the search of the image |
| `Pdlsym.AnswerIsFirstHit` | libs/pdlsym.c:241-269 | The answer is the value of the least accepted index with non-zero value and that name, and 0 if and only if there is none |
| `Pdlsym.RecordReadsInTable` | libs/pdlsym.c:225-232 | Then every record read, relocated or not, lies between the two tables, given an entry size of at least 2W |
| `Pdlsym.BoundsAreSafeIff` | libs/pdlsym.c:227 | The index test keeps the whole search between the two tables if and only if the end of the record after the last does not wrap around 2^64, or the int index stops before it |
| `WrappingImage.AnswersFromOutside` | libs/pdlsym.c:225-269 | An image of 368 bytes that loads, with one whole record and that without a value, for which the answer comes from a record at address 0 |
| `Pdlsym.NameReadsInTable` | libs/pdlsym.c:254-264 | Every byte that the loops over a name read, the one that ends the comparison too, lies inside a string table below 4 GiB |
| `Pdlsym.NameReadsAreSafeIff` | libs/pdlsym.c:254-264 | The loops stay inside the string table if and only if it is below 4 GiB or their int counter runs out before its end |
| `Pdlsym.RelocationInvariance` | libs/pdlsym.c:225-251 | Relocated and unrelocated DT_STRTAB and DT_SYMTAB give the same answer for every query |
| `Pdlsym.NothingFoundInSelf` | libs/pdlsym.c:244-255 | On the calling process itself no name is ever found: names are peeked with its own pid |
| `SymbolTable.RoomIffWithin` | libs/pdlsym.c:227 | The wrapped comparison accepts exactly the indices whose whole records fit |
| `SymbolTable.NameCompared` | libs/pdlsym.c:254-260 | The loop accepts exactly the C string of the string table that equals the query |
| `SymbolTable.AnswerIsFirstNamed` | libs/pdlsym.c:241-269 | On an encoded file the whole program answers what the logical symbol and string tables say |
| `SymbolTable.SelfIsLoaded` | libs/pdlsym.c:244-254 | In the calling process the image is read directly and loads as well; only no name is found |
| `SymbolTable.SameTablesSameAnswer` | libs/pdlsym.c:225-269 | Two memories with the same tables, in any class, byte order, host and relocation, give the same answer |
| `Lifecycle.FunctionInjector.AssignSource` | FunctionInjector.cpp:29-44 | The source becomes current and keeps its entries, a new one has none |
| `LoaderTrace.PdlopenIsDlopen` | hot_swap.cpp:185-347 | The libc calls that `HotSwap.Pdlopen` makes open exactly the library it returns: the counts of this model are those of the target's trace |
| `LoaderTrace.PdlcloseIsDlclose` | hot_swap.cpp:349-399 | The call that `HotSwap.Pdlclose` makes closes exactly the given library, and 1 says that it was not open |
| `Lifecycle.FunctionInjector.CompileFunc` | FunctionInjector.cpp:46-62 | On the maps: without a source nothing; a function compiled before keeps its entry; else its entry is the path that the compiler left, null if it failed, and no handle; all other entries stay |
| `Lifecycle.FunctionInjector.InjectFuncMain` | FunctionInjector.cpp:101-119 | Closes the recorded library first; if that fails, null and no change; a null path kills the debugger |
| `Lifecycle.FunctionInjector.InjectFunc` | FunctionInjector.cpp:64-99 | On the maps: 1 and no change exactly without an entry; -11 (killed) exactly at a null path, 0 exactly if the recorded library, if any, is open and dlopen returns a handle, else 3; on 0 the entry has the new handle, the old library is closed once and the new one opened, and the trampoline leads to it if it was found |
| `Lifecycle.RecordsAreFaithful` | FunctionInjector.cpp:29-62 | After every run: the current source is the one assigned last; an entry exists for a source and a function if and only if the function was compiled while that source was the one assigned last, and its path is the one of the first such compilation |
| `Lifecycle.InjectionAfterRun` | FunctionInjector.cpp:64-119 | After every run an injection returns 1 if and only if the function was never compiled from the current source; if its first compilation left a library it never kills the debugger, and succeeds if and only if dlopen returns a handle and the library it replaces, if any, is open |
| `Lifecycle.HandlesConserved` | FunctionInjector.cpp:29-119 | Over every run: openings of a library = openings before + entries recorded since, less the times it was closed without replacement |
| `Lifecycle.BalancedIff` | FunctionInjector.cpp:101-119 | A request keeps that balance if and only if it does not close a library for a replacement that fails to open |
| `Lifecycle.SitesHeldIff` | FunctionInjector.cpp:101-119 | Every trampoline still leads into a recorded library if and only if none was replaced without a new trampoline |
| `Lifecycle.TrampolinesStayValid` | FunctionInjector.cpp:29-119 | In every run without these two failures all trampolines lead into open libraries |
| `Lifecycle.LosingTheLastMakesStale` | FunctionInjector.cpp:102-107 | A failed replacement leaves the entry with the closed library |
| `Lifecycle.StaleForEver` | FunctionInjector.cpp:102-107 | From then on every injection of that function returns 3 and changes nothing, over every run in which dlopen does not return the same handle again |
| `LineReader.InFile.Fgetc` | cparser.cpp:298-310 | The next char, with byte 0xFF passing for EOF |
| `LineReader.GetLineSplitBy` | cparser.cpp:292-318 | Delivers the next line of any length, with the buffer grown so that the NUL fits; -1 and no change after the end |
| `LineReader.LinesPartitionIff` | cparser.cpp:292-318 | The lines join up to the whole file if and only if it has no byte 0xFF |
| `LineReader.LinesAreShaped` | cparser.cpp:300-311 | In any file the token and the newline, 10, stand at most at the end of a line; without byte 0xFF every line but the last ends with one, and the last has none |
| `LineReader.LinesAreTheParts` | cparser.cpp:292-318 | So in a file without byte 0xFF the lines are the only way to cut it behind every token and newline |
| `CText.CheckCurlyBrackets` | cparser.cpp:89-101 | Opened braces less closed ones |
| `CText.CurlyBracketBeforeSemicolon` | cparser.cpp:125-136 | 1, -1 or 0 by what comes first |
| `CText.DetermineType` | cparser.cpp:146-190 | The kind by the first of brace, semicolon and parenthesis, and where the line goes on |
| `CText.StrContainsAtBeginning` | cparser.cpp:13-22 | True exactly for a prefix |
| `CLines.BracesCounted` | cparser.cpp:89-101 | The brace sum is the number of bytes 0x7B less that of 0x7D |
| `CLines.CurlyFirstIff` | cparser.cpp:125-136 | 1, -1 or 0 as 0x7B, 0x3B or neither comes first |
| `CLines.KindIff` | cparser.cpp:146-190 | Each kind of line if and only if 0x7B, 0x3B or 0x28 comes first, nothing is visible (33 to 126), or something is and none of the three occurs |
| `CLines.NamesIff` | cparser.cpp:202-212 | `strstr_strict` succeeds if and only if the first occurrence is not followed by a letter, `-` or `_` |
| `CLines.LineKindIs` | cparser.cpp:368-396 | What the scan takes a line for, by the literal words that lead its visible part |
| `CLines.WrittenPart` | cparser.cpp:273-276 | A body line is left out and not counted if and only if `//` leads it |
| `Isolator.WriteBody` | cparser.cpp:268-283 | The copied body, up to the line that balances or the end |
| `Isolator.WriteFunction` | cparser.cpp:246-285 | The signature lines and the body; stuck if the input ends before a brace or semicolon |
| `Isolator.CheckAndWriteFunc` | cparser.cpp:215-289 | What is written, read and left in the caller's buffer, for all five kinds of line |
| `Extraction.BodyIsShortest` | cparser.cpp:270-283 | No shorter block of lines balances, and the block copied does, unless the file ends first |
| `Extraction.StopsAtClosingBraceIff` | cparser.cpp:270-283 | The copy reaches the line of the brace that closes the function, and ends with it if and only if the rest of that line balances or the file ends |
| `Extraction.SignatureIsKept` | cparser.cpp:246-283 | What is written is the text before, the signature lines up to their NULs, and the body without `//` lines |
| `Extraction.WrittenIsContiguous` | cparser.cpp:246-283 | Without such comments what is written is a contiguous part of the file from the matched line on |
| `Scanner.ResolveDefine` | cparser.cpp:34-50 | Copies macro lines up to the first without a backslash; stuck at the end of the file |
| `Scanner.SkipComment` | cparser.cpp:387-392 | Passes the lines led by a star and leaves the next one to be looked at; stuck if the file ends with such a line |
| `Scanner.WriteAggregate` | cparser.cpp:393-407 | Copies what the pointer into the line buffer shows after each line, up to the end of the aggregate; stuck if there is none |
| `Scanner.SeenInBuffer` | cparser.cpp:366 | That is the rest of the new line, or what the pointer showed before if the line is too short to reach it |
| `Scanner.SkipLine` | cparser.cpp:368-408 | What a directive, comment, block comment, typedef, enum or struct writes and consumes, up to the next line to look at |
| `Scanner.IsolateFunction` | cparser.cpp:361-422 | The loop computes the scan of the whole input, for every file |
| `Units.SignatureFound` | cparser.cpp:246-266 | Found if and only if a brace comes before a semicolon, stuck if and only if neither comes |
| `Units.CheckFound` | cparser.cpp:215-289 | For every line and whatever follows: found if and only if it starts a definition, stuck if and only if the input ends inside a declaration |
| `Units.CheckReads` | cparser.cpp:237-266 | Exactly the lines up to the deciding one are read |
| `Units.BracesAccounted` | cparser.cpp:215-266 | The braces left in the caller's buffer and the swallowed ones make up those of all lines read |
| `Units.DepthIsSumIff` | cparser.cpp:420 | For any number of lines read, the scanner's depth is their brace sum if and only if the swallowed lines balance |
| `Isolation.ScanFindsFirst` | cparser.cpp:361-422 | The scan isolates the first line that is taken for the definition where the brace sum of the code lines before is 0, directives, macros, comments, typedefs, enums and structs counting nothing, and reports none exactly if there is none; it never gets lost. The output before it is the text that those lines leave: `#define` lines with their continuations, `#include` with what becomes of its rest, aggregates and extern declarations; nothing else |
| `Isolation.EofByteEndsScan` | cparser.cpp:361-362 | A byte 0xFF at the beginning of a line ends the scan there |
| `Isolation.EofByteEndsBody` | cparser.cpp:282-283 | It ends the copy of a body as well |
| `Aggregates.SwallowedIff` | cparser.cpp:393-407 | A line behind a typedef, enum or struct is taken in with it, so that a function there is never found, if and only if no line in between has a semicolon at or after a closing brace; an aggregate complete on one line always takes the next one |
| `Aggregates.ClosedIff` | cparser.cpp:398-405 | The loop ends if and only if some line behind the first has a semicolon at or after a closing brace |
| `Prelude.CheckLeaves` | cparser.cpp:230-245 | Code that is not the definition leaves `extern `, the declaration and a CR for each declaration that ends on it, unless `static` occurs from its start on the line on, and nothing else |
| `Prelude.StartLeaves` | cparser.cpp:230-245 | So do the declarations in front of a definition |
| `Prelude.MacroIsRead` | cparser.cpp:34-50 | The lines of a macro are written as they stand, up to the first without a backslash |
| `Prelude.AggregateIsRead` | cparser.cpp:393-407 | Of a typedef, enum or struct what each line shows from the first one's indentation on is written once, the last included |
| `FunctionNames.NamesIffDeclares` | cparser.cpp:202-212 | `strstr_strict` tells whether the identifier before the parenthesis is the name if and only if the first occurrence is not the tail of that identifier, does not lie behind it and pass, and does not lie before it and pass exactly when that identifier is another |
| `FunctionNames.DeclaresIffAlone` | cparser.cpp:247-248 | The identifier before the parenthesis is the name if and only if the name occurs right there with no identifier character before it |
| `FunctionNames.DefinesIff` | cparser.cpp:247-248 | A declaration on one line or on several is taken for the definition rightly if and only if it starts none whose name is misread; on several lines the name is misread if a search from the second line or from the last one passes exactly when the name does not stand before the parenthesis |
| `FunctionNames.ParameterIsMisread` | cparser.cpp:247-248 | `r(foo){` is taken for the definition of `foo` |
| `FunctionNames.OnlyAsNameIsRead` | cparser.cpp:202-212 | Where the name occurs only as the whole identifier before the parenthesis, and not on the first of several lines, the test is right and says whether it occurs |
| `FunctionNames.ScanFindsDefinition` | cparser.cpp:361-422 | Where no line of code up to the definition has its name misread, the scan isolates the first real definition of the function outside all braces, broken or not |
| `FunctionNames.OccursOnlyIsWellNamed` | cparser.cpp:361-422 | No name is misread where, up to the definition, outside braces and on code that starts a definition, the name occurs only so |
| `FunctionNames.OtherLinesDoNotMatter` | cparser.cpp:368-408 | Whether the name occurs only so depends on lines of code alone: directives, macros, comments, typedefs, enums and structs in front of them make no difference |
| `FunctionNames.IsolatesDefinition` | cparser.cpp:361-422 | Then the output is what was there, the text that the lines before that definition leave, the declarations in front of it and its own text, if and only if its declaration is not broken before the parenthesis; or the scan reports that there is none and the output is the text that all lines leave |
| `BrokenLines.WrittenFromStartIff` | cparser.cpp:237-285 | For any number of broken lines: what is written is the function's text if and only if the parenthesis comes first on the line where its declaration starts |
| `BrokenLines.StartIsInText` | cparser.cpp:230-245 | The declaration that is written starts in the given text, at the beginning of a line or with only blanks after a semicolon |
| `BrokenLines.WrittenFromStart` | cparser.cpp:215-289 | For every definition found, what is written is what is written from that start on |
| `BrokenLines.WrittenIff` | cparser.cpp:215-289 | For every definition found, on any lines: the function's text is written behind the output at its start if and only if the declaration that starts there is not broken before its parenthesis |

## Left out

* Memory is the prefix of the address space that is mapped; protection and holes are not modelled. All reads
  of unmapped memory by the symbol resolver's own process fail instead of ending it.
* Instructions other than push, pop, register and immediate moves, xor of a register with itself, call and
  jump are one arbitrary step, and so is a whole libc routine. Signals other than SIGTRAP, other threads and
  syscall restarting are not modelled.
* Finding the free space in /proc/maps, `checkloaded`, `findRet`, attaching, forking, gcc, `realpath` and
  temporary files: their results are parameters.
* `StackUnwinder`, the restart without a checkpoint, the prompts and all printing.
* `exe::lookup_symbol`, `lookup_linker_flags` and the libc offsets: simpler than `pdlsym`.
* Overflow of C ints: lengths and capacities are below 2^31, and so are `i*phdr.size` and `2*j*W`; the
  symbol index stops at 2^31 - 1.
* Freeing and leaking of the programs' own buffers, and buffers that `checkAndWriteFunc` hands on from the
  middle of a line, where 1024 bytes need not be there.
* The line buffer is taken to stay where it is when it grows; a pointer into the middle of it is then still
  valid. What `resolveInclude` writes is a parameter.
- Pdlsym.RecordReadsInTable: asks for tables in order and no wrap-around, because the source's test does not; `BoundsAreSafeIff` shows that this is exact.
- Pdlsym.NameReadsInTable: is about string tables below 4 GiB, because the source adds the 32-bit name index and an int; `NameReadsAreSafeIff` shows that this is exact.
- DebugRun.Transparency: leaves out restarts, which the native run does not have; `OverlayInvariant` and `RestartReturnsToRecordedHit` cover them.
- HotSwap.Pdlopen: on the exit of the debugger says only that memory is unchanged and rip is in the stub, because the registers really stay changed.
- Ptrace.Tracee.PtraceCont: takes it that the target has stopped by SIGTRAP when the sleep of 5 ms is over; the exits for another signal and for a target still executing are not modelled.
- Isolation.ScanFindsFirst: leaves out files that end inside a declaration, macro, comment or aggregate, where the scan does not end; swallowed lines have to balance, which `DepthIsSumIff` shows to be exact.
- Lifecycle.FunctionInjector.InjectFuncMain: dlclose is taken to succeed exactly on open libraries; what the loader does with a bad handle is not part of this model.
