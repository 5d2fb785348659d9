# Delve's native ARM (32-bit) thread core, modelled in Dafny

This project models the part of the Delve debugger's native Linux backend
that is specific to 32-bit ARM. ARM offers no hardware single-step through
ptrace, so Delve emulates one. It decodes the instruction at PC, computes
every address execution can reach next (the fall-through and at most one
branch, POP, LDR or MOV/ADD target), and plants the breakpoint instruction at
each of them. Then it continues the thread, waits for it to stop, and puts
the original words back.

Around that sit four smaller pieces:
- the resume hand-off of the pending signal;
- the choice between the bulk (process_vm_readv/writev) and word-wise
  (PTRACE_PEEKDATA/POKEDATA) memory paths;
- the register write-backs (setPC, SetSP, SetReg, restoreRegisters,
  ptraceGetFpRegset);
- the DWARF register-number table of "DWARF for the ARM Architecture"
  (ARM IHI 0040B), Table 1.

Modules:
- `Words`: 32/64-bit machine words. Go's uint64 wrap-around (`Wrap64`) and
  the uintptr conversion, 32 bits on ARM (`Trunc32`), are explicit. Also
  shifts and rotation, and little-endian words.
- `Errors`: Go errors as values. `Nil` and the raw `Errno(0)` are
  different values, as they are in Go.
- `Armasm`: the decoded-instruction datatype. The decoder itself is a
  parameter.
- `Tracee`: the tracee's word-addressed memory as peek and poke see it,
  and the register file.
- `NextPC`: the resolver's specification, `Candidates`, with one lemma per
  instruction family.
- `Step`: the trap patch loop, the deferred restore, and the wait
  classification of singleStep, as functions with their lemmas.
- `RegsArm`: the register blocks, ptraceGetFpRegset, and the FP decision
  of restoreRegisters.
- `Regnum`: ARMToName, ARMMaxRegNum and the ARMNameToDwarf table.
- `Native`: the process and thread objects as classes. Each method is
  proved against the functions above.

The model follows the code where it behaves unexpectedly:
- When two candidates coincide (a branch to PC+4), the second peek reads
  the trap already planted, and that trap is recorded as the "original".
  `DuplicateCandidateKeepsTrap` shows it. The restore property therefore
  needs distinct candidates.
- The deferred restore assigns to singleStep's named result. As a result:
  - Once any trap was recorded, the result is the last restore poke's.
  - The restore pokes go through the stepped thread, so they succeed only
    while the process lives and that thread is still in a ptrace-stop. It
    is when no continue was issued, when PTRACE_CONT failed with an errno
    other than ESRCH, or when the wait loop ended on a stop of that thread.
  - When the stepped thread exited, was killed by a signal, or the wait
    failed, every restore poke fails with ESRCH. singleStep then returns
    ESRCH, and the planted traps stay in memory (`Step.StepSpaceLeavesTraps`,
    `Native.SteppedThreadGoneNotHeld`).
  - After the leader's exit, the model assumes the pokes fail with ESRCH.
    postExit and execPtraceFunc are not part of this model (see "Left
    out").
  - A later patch failure, a failed PTRACE_CONT, a wait error and
    ErrProcessExited are all replaced by that result.
  - This is stated in `Native.NativeThread.SingleStep`.
- restoreRegisters compares the already normalised result of
  ptraceSetGRegs with `Errno(0)`. That comparison always differs, so the
  FP block is never restored (`RegsArm.RestoreNeverWritesFp`).
- ptraceGetFpRegset slices its buffer to `iov.Len - 8`. A full 260-byte
  transfer therefore returns 252 bytes, and a length below 8 wraps around
  in uint32 and panics.
- A thread killed by a signal is not "exited" in the wait loop. When it is
  the leader and not the stepped thread, the loop keeps waiting. When it
  is the stepped thread, the wpid check ends the step with nil
  (`Step.SignaledLeaderKeepsWaiting`).

## Model

| member | source | states |
|---|---|---|
| Errors.SyscallErr | pkg/proc/native/registers_linux_arm.go:21-28 | a raw syscall result is nil exactly when the errno is 0, and the errno otherwise |
| Errors.Normalise | pkg/proc/native/registers_linux_arm.go:92-94 | the Errno(0) to nil step never leaves Errno(0) and changes nothing else |
| Words.Trunc32 | pkg/proc/native/threads_linux_arm.go:68 | uintptr(pc) keeps values below 2^32 and is congruent to the input modulo 2^32 |
| Words.LE32RoundTrip | pkg/proc/native/threads_linux_arm.go:113 | decoding the little-endian bytes of a word gives the word back |
| Words.LEBytesRoundTrip | pkg/proc/native/threads_linux_arm.go:113 | encoding the decoded value of four bytes gives the bytes back |
| NextPC.BranchTarget | pkg/proc/native/threads_linux_arm.go:82-94 | a branch adds nothing exactly when its argument is not an immediate, register or PC-relative offset, and fails exactly on an unknown register, with that register's error |
| NextPC.PopTarget | pkg/proc/native/threads_linux_arm.go:95-114 | POP adds nothing exactly when PC is not listed; an unknown SP is the error; every error is the SP lookup's, ESRCH or EIO |
| NextPC.ShiftIndex | pkg/proc/native/threads_linux_arm.go:130-139 | a zero shift count leaves the index unchanged, and the right shifts never increase it |
| NextPC.LoadAddress | pkg/proc/native/threads_linux_arm.go:120-148 | an unknown base register is the error; otherwise an error can only be the unknown index register |
| NextPC.LdrTarget | pkg/proc/native/threads_linux_arm.go:115-157 | LDR adds nothing exactly when it does not load PC from a memory operand |
| NextPC.AddOperand | pkg/proc/native/threads_linux_arm.go:163-173 | adding an operand fails exactly on an unknown register, with that register's error |
| NextPC.OperandSum | pkg/proc/native/threads_linux_arm.go:162-174 | the only error of the operand sum is an unknown register that the register file lacks |
| NextPC.MovAddTarget | pkg/proc/native/threads_linux_arm.go:159-176 | MOV/ADD add nothing exactly when the destination is not PC; their only error is an unknown register |
| NextPC.Candidates | pkg/proc/native/threads_linux_arm.go:62-179 | a successful resolution lists one or two addresses, the first PC + 4, and implies the word at PC was readable |
| NextPC.LoadWord | pkg/proc/native/threads_linux_arm.go:106-113 | a load succeeds exactly when the process lives and uintptr(addr) is mapped, and yields that word read little-endian |
| NextPC.FetchAndDecodeErrors | pkg/proc/native/threads_linux_arm.go:66-80 | a dead process gives ESRCH, an unmapped PC gives EIO, and a decode failure gives the decoder's error, with no list |
| NextPC.OnlyFallthrough | pkg/proc/native/threads_linux_arm.go:81-178 | other opcodes, and LDR/MOV/ADD not writing PC, give exactly [PC + 4] |
| NextPC.BranchCandidates | pkg/proc/native/threads_linux_arm.go:82-94 | B/BL/BLX/BX add the immediate, the register's value or PC + offset mod 2^64; an unknown register is the error; other argument kinds add nothing |
| NextPC.BranchWithLinkExample | pkg/proc/native/threads_linux_arm.go:82-94 | BL at 0x1000 with target 0x2000 gives [0x1004, 0x2000] |
| NextPC.CountBelowIsCardinality | pkg/proc/native/threads_linux_arm.go:101-105 | the bit-by-bit count equals the number of registers listed below PC |
| NextPC.PopCandidates | pkg/proc/native/threads_linux_arm.go:95-114 | POP without PC adds nothing; with PC, an unknown SP is the error, and otherwise it adds the word at SP + 4 × (registers listed below PC), or fails with EIO |
| NextPC.PopExample | pkg/proc/native/threads_linux_arm.go:95-114 | POP {r0, r1, r2, pc} with SP = 0x7000 loads the new PC from 0x700C |
| NextPC.LoadAddressModes | pkg/proc/native/threads_linux_arm.go:120-148 | an unknown base register is the error; offset/pre-indexed modes use base ± shifted index, or base + signed offset when Sign is 0; other modes use the base; an unknown index register is the error |
| NextPC.LdrCandidates | pkg/proc/native/threads_linux_arm.go:115-157 | LDR into PC adds the word at the load address, or EIO if unmapped, or the register error; a non-memory operand adds nothing |
| NextPC.OperandSumIsTotal | pkg/proc/native/threads_linux_arm.go:162-174 | with readable registers, the running sum equals the sum of all immediate and register operands mod 2^64 |
| NextPC.OperandSumPrefixError | pkg/proc/native/threads_linux_arm.go:167-171 | the first unreadable register aborts the whole sum with its error |
| NextPC.MovAddCandidates | pkg/proc/native/threads_linux_arm.go:159-176 | MOV/ADD into PC add the mod-2^64 sum of the operands after the first |
| Native.NativeThread.ResolvePC | pkg/proc/native/threads_linux_arm.go:62-179 | the method's list or error is exactly Candidates for the thread's memory |
| Native.NativeThread.PopTargetOf | pkg/proc/native/threads_linux_arm.go:95-114 | the POP case computes PopTarget: the SP error, the slot, then the load |
| Native.NativeThread.PopSlotOf | pkg/proc/native/threads_linux_arm.go:101-105 | the bit loop yields PopSlot: SP plus four bytes per listed register below PC, mod 2^64 |
| Native.NativeThread.LdrTargetOf | pkg/proc/native/threads_linux_arm.go:115-157 | the LDR branch computes LdrTarget |
| Native.NativeThread.MovAddTargetOf | pkg/proc/native/threads_linux_arm.go:159-176 | the operand loop computes MovAddTarget, including its first-error exit |
| Step.TrapAddresses | pkg/proc/native/threads_linux_arm.go:209-210 | each trap address is uintptr of the candidate at the same position |
| Step.Patch | pkg/proc/native/threads_linux_arm.go:195-214 | patching succeeds exactly when every candidate is pokeable; then each holds the trap and has an original recorded; failures are ESRCH/EIO; only pokeable candidates get recorded; other words are untouched |
| Step.PokeablePrefix | pkg/proc/native/threads_linux_arm.go:195-214 | the number of leading candidates that can be peeked and poked: all before it can, the one at it cannot |
| Step.PatchStopsAtFirstFailure | pkg/proc/native/threads_linux_arm.go:195-214 | the loop goes in list order and stops at the first candidate it cannot peek or poke; that one's ESRCH or EIO is the error, and exactly the earlier candidates are recorded |
| Step.PatchWritesPrefix | pkg/proc/native/threads_linux_arm.go:195-214 | every candidate before the first failure holds the trap afterwards |
| Step.PatchKeepsOthers | pkg/proc/native/threads_linux_arm.go:195-214 | no word outside the candidates before the first failure changes |
| Step.PatchRecordsOriginals | pkg/proc/native/threads_linux_arm.go:195-206 | for distinct, unrecorded candidates, each record holds the word as it was before the loop |
| Step.Restored | pkg/proc/native/threads_linux_arm.go:218-227 | restoring puts back the recorded original at every pokeable recorded address, keeps the mapped addresses and liveness, and changes no unrecorded word |
| Step.Execute | pkg/proc/native/threads_linux_arm.go:215 | the continued thread's own stores change exactly the mapped words they name |
| Step.StepSpace | pkg/proc/native/threads_linux_arm.go:191-253 | the memory after a step keeps its mapped addresses, and is alive exactly when it was and the leader did not exit; the restore takes effect only when the stepped thread is still stopped |
| Step.StepSpaceOutsideTraps | pkg/proc/native/threads_linux_arm.go:191-253 | a word that is not a trap address ends as the thread's own store left it, or unchanged if it did not run |
| Step.StepSpaceRestoresTraps | pkg/proc/native/threads_linux_arm.go:191-227 | while the process lives and the stepped thread is still stopped, every distinct trap address gets back the word it held before the step |
| Step.StepSpaceLeavesTraps | pkg/proc/native/threads_linux_arm.go:218-227 | when the stepped thread is no longer stopped, every planted trap stays in memory unless the thread itself overwrote it |
| Step.StopsThreadIsStepDone | pkg/proc/native/threads_linux_arm.go:237-251 | the wait loop leaves the stepped thread stopped only when it ends as a finished step, and a finished step does so exactly on a stop status |
| Native.SteppedThreadGoneNotHeld | pkg/proc/native/threads_linux_arm.go:237-251 | a non-leader stepped thread that exits ends the loop as gone, and one killed by a signal ends it as done; in neither case is it left stopped for the restore |
| Step.RestoreAfterPatch | pkg/proc/native/threads_linux_arm.go:195-227 | restoring after patching distinct, not yet recorded addresses equals restoring the earlier record on the earlier memory |
| Step.RestoreUndoesPatch | pkg/proc/native/threads_linux_arm.go:191-227 | for distinct candidates, patch then restore gives back the memory as it was |
| Step.DuplicateCandidateKeepsTrap | pkg/proc/native/threads_linux_arm.go:195-206 | a candidate listed twice records the trap as its original, so restore leaves the trap in memory |
| Step.RestoreIdempotent | pkg/proc/native/threads_linux_arm.go:218-227 | restoring twice equals restoring once |
| Step.Classify | pkg/proc/native/threads_linux_arm.go:231-253 | a wait error fails; nil/exited from the leader is ErrProcessExited with status 0 for nil; from another thread that thread is gone; a stop of this thread ends the step; anything else keeps waiting (each case an if-and-only-if) |
| Step.SignaledLeaderKeepsWaiting | pkg/proc/native/threads_linux_arm.go:237-252 | a leader that is not the stepped thread does not end the loop when killed by a signal; the stepped thread killed by a signal ends it as a finished step, also when it is the leader |
| Step.FirstDecisive | pkg/proc/native/threads_linux_arm.go:231-253 | the wait loop stops at the first result that is not "keep waiting" |
| Native.Outcome | pkg/proc/native/threads_linux_arm.go:231-253 | the wait loop ends with a decisive action |
| Native.Resolved | pkg/proc/native/threads_linux_arm.go:183-190 | the register read's error comes first, then the resolver's; a resolved list is never empty |
| Native.NativeThread.PatchTraps | pkg/proc/native/threads_linux_arm.go:195-214 | the patch loop leaves memory, record and error exactly as Patch says |
| Native.NativeThread.RestoreTraps | pkg/proc/native/threads_linux_arm.go:218-227 | the restore loop, in any map order, yields Restored when the thread is still stopped and changes nothing otherwise; its error is the incoming one with no record, nil when all pokes succeed, and ESRCH once the process or the stopped thread is gone |
| Native.NativeThread.AwaitStop | pkg/proc/native/threads_linux_arm.go:231-253 | acts on the decisive wait result: a leader exit marks the process exited and reaped, another thread's exit removes it from the threads, a stop returns nil; reports whether the stepped thread is left stopped |
| Native.NativeThread.ContinueAndWait | pkg/proc/native/threads_linux_arm.go:209-253 | the thread is continued (logged) only after all traps are set; only when the continue succeeded does it run, making its own stores, and is waited for; it stays stopped without a continue or after a continue failing with anything but ESRCH |
| Native.NativeThread.StepFrom | pkg/proc/native/threads_linux_arm.go:191-253 | singleStep after resolution: the continue log, the swallowed errors (nil only while the process lives and the stepped thread is still stopped, ESRCH otherwise), liveness, and the memory exactly as StepSpace: traps restored for distinct candidates when the thread is still stopped, the thread's own stores kept elsewhere |
| Native.NativeThread.SingleStep | pkg/proc/native/threads_linux_arm.go:181-254 | a resolution error returns with nothing changed; otherwise the whole outcome is as StepFrom states |
| Native.NativeThread.RestoreRegisters | pkg/proc/native/threads_linux_arm.go:41-59 | the general block is written back, the FP block is never written, and the result is the general write's |
| RegsArm.RestoreFpStep | pkg/proc/native/threads_linux_arm.go:45-58 | when the general write's error is not Errno(0) nothing else happens; the result is never Errno(0) |
| RegsArm.RestoreNeverWritesFp | pkg/proc/native/threads_linux_arm.go:47-53 | with the normalised error ptraceSetGRegs returns, the FP branch is unreachable for every errno |
| Native.FpRegisters | pkg/proc/native/threads_linux_arm.go:30-39 | the FP slice of ptraceGetFpRegset; a returned error is wrapped in "could not get floating point registers"; the out-of-range panic passes through unwrapped |
| Native.GetWatchpoints | pkg/proc/native/threads_linux_arm.go:256-258 | always fails |
| Native.WriteHardwareBreakpoint | pkg/proc/native/threads_linux_arm.go:260-262 | always fails |
| Native.ClearHardwareBreakpoint | pkg/proc/native/threads_linux_arm.go:301-303 | always fails |
| Native.FindHardwareBreakpoint | pkg/proc/native/threads_linux_arm.go:317-319 | always fails |
| Native.Stop | pkg/proc/native/threads_linux.go:22-29 | nil exactly when tgkill succeeds; otherwise its errno wrapped with the thread id |
| Native.Stopped | pkg/proc/native/threads_linux.go:33-36 | stopped exactly in the two trace-stop states |
| Native.NativeThread.Resume | pkg/proc/native/threads_linux.go:38-42 | the pending signal is cleared and handed to the continue; the thread is marked running |
| Native.NativeThread.ResumeWithSig | pkg/proc/native/threads_linux.go:44-48 | marks the thread running and issues one continue with the signal, whatever its error |
| Native.Blocked | pkg/proc/native/threads_linux.go:50-61 | false when the registers cannot be read; otherwise true exactly when PC lies in runtime.futex, runtime.usleep or runtime.clone |
| Native.NativeThread.WriteMemory | pkg/proc/native/threads_linux.go:65-81 | exited process: ErrProcessExited; empty write: nothing; bulk path only above pointer size; ptrace path exactly when the bulk path was skipped or wrote nothing, and then its result is returned |
| Native.NativeThread.ReadMemory | pkg/proc/native/threads_linux.go:83-95 | exited process: ErrProcessExited; empty read: nothing; bulk first with its error dropped; ptrace exactly when bulk read 0 bytes |
| Native.NativeThread.SoftExc | pkg/proc/native/threads_linux.go:98-100 | reports the software-exception flag |
| RegsArm.GregsBlockCoversUregs | pkg/proc/native/registers_linux_arm.go:16-37 | the 72-byte general iovec covers exactly the 18 words, and reading them back gives the same words |
| RegsArm.RegsRoundTrip | pkg/proc/native/registers_linux_arm.go:21-37 | the words written to the register iovec are the words read back |
| Native.NativeThread.Registers | pkg/proc/native/registers_linux_arm.go:116-131 | a snapshot of the kernel's general block with FP not loaded, or the GETREGSET errno |
| Native.NativeThread.SetGRegs | pkg/proc/native/registers_linux_arm.go:30-37 | the kernel takes the words exactly when SETREGSET succeeds; the error is normalised |
| RegsArm.PtraceGetFpRegset | pkg/proc/native/registers_linux_arm.go:41-56 | ENODEV gives (nil, nil), another errno gives (nil, errno), success gives the buffer up to iov.Len - 8 or an out-of-range panic; never Errno(0) |
| RegsArm.FpRegsetIsShortPrefix | pkg/proc/native/registers_linux_arm.go:41-56 | the slice is always a prefix of the 260-byte buffer, and a full transfer yields 252 bytes |
| Native.NativeThread.SetPC | pkg/proc/native/registers_linux_arm.go:58-69 | a fetch error writes nothing; otherwise only R15 changes, to the low 32 bits of pc, when the write succeeds |
| Native.NativeThread.SetReg | pkg/proc/native/registers_linux_arm.go:71-96 | a fetch or snapshot error writes nothing; the general block follows the write result; the FP block is written only after a successful general write, when it changed and is present |
| Native.NativeThread.SetSP | pkg/proc/native/registers_linux_arm.go:98-110 | a fetch error writes nothing; otherwise only R13 changes, to the low 32 bits of sp, when the write succeeds |
| Native.SetDX | pkg/proc/native/registers_linux_arm.go:112-114 | always the "not supported" error |
| Regnum.Dec | pkg/dwarf/regnum/arm.go:44 | the %d rendering is one or more decimal digits, a single one exactly below 10 |
| Regnum.ARMToName | pkg/dwarf/regnum/arm.go:22-35 | "R"+n for n ≤ 15, "S"+(n−64) for 64..95, and "unknown"+n exactly for all other numbers |
| Regnum.SpAndPcNamedAsGeneral | pkg/dwarf/regnum/arm.go:24-29 | 13 and 15 print as "R13" and "R15"; the "SP" and "PC" cases are never reached |
| Regnum.ARMMaxRegNum | pkg/dwarf/regnum/arm.go:37-39 | 95 = S31, and every larger number has only an "unknown" name |
| Regnum.DecInjective | pkg/dwarf/regnum/arm.go:43-53 | distinct loop indices print as distinct names, so no table entry overwrites another |
| Regnum.CoreNamesInTable | pkg/dwarf/regnum/arm.go:43-45 | "r0".."r15" look up 0..15, the numbers ARMToName prints as "R0".."R15" |
| Regnum.AliasInTable | pkg/dwarf/regnum/arm.go:46-49 | bp, lr, sp and pc keep their numbers 11, 14, 13 and 15 in the final table |
| Regnum.VfpNamesInTable | pkg/dwarf/regnum/arm.go:51-53 | "s0".."s31" look up 64..95, which ARMToName prints as "S0".."S31" |
| Regnum.ARMNameToDwarf | pkg/dwarf/regnum/arm.go:41-56 | the table built as "r0".."r15", the aliases, then "s0".."s31"; its contents are stated by the lemmas below |
| Regnum.NameToDwarfSize | pkg/dwarf/regnum/arm.go:41-56 | the table has exactly 52 names |
| Regnum.NameToDwarfNamed | pkg/dwarf/regnum/arm.go:41-56 | every number in the table is at most 95 and has a proper name from ARMToName |

## Left out

- The process_vm_readv/writev, tgkill and wait system calls, PTRACE_CONT, PTRACE_GETREGSET/SETREGSET, and the /proc status read. Their results are parameters: errno codes, byte counts, a wait-result script, and a thread-state value. PTRACE_PEEKDATA and PTRACE_POKEDATA are not parameters. They are functions of the modelled address space (`Tracee.Peek`, `Tracee.Poke`).
- The stepped thread's ptrace-stop state is not a field of the model. For one step it is derived (`Native.Held`) from the continue's errno and the wait result that ends the loop. The patch pokes assume the thread is stopped when singleStep is called.
- The armasm decoder is a parameter (`decode`). linutil's register snapshot (`Get`, `SetReg`, the lazy FP load and `Decode`) is foreign code. `Get` is a lookup in the register map, and `SetReg` is the parameter `apply`.
- execPtraceFunc, which runs on a pinned OS thread, is a direct call.
- Memory is word-addressed: one 4-byte word per uintptr, and a peek or poke moves exactly one such word. Unaligned or overlapping words are not modelled.
- Read/WriteMemory: only the path choice and the reported counts and errors are modelled, not the buffer contents.
- fpRegisters: `Decode` of the FP block into named registers is left out; only the slice and the error are modelled.
- BreakpointInstruction and MaxInstructionLength are the parameter `trap` and the constant 4.
- postExit: modelled only as marking the process exited and its memory gone. Its effect on the ptrace executor (execPtraceFunc) is not modelled. The restore pokes after the leader's exit are taken to fail with ESRCH.
- The debuggee's execution between PTRACE_CONT and the stop is modelled only as the stores it makes to mapped words (the parameter `stores`). Its instructions, register effects and unmapped accesses are not modelled.
- The debug Printf in the wait loop and the commented-out hardware-watchpoint implementations are left out.
- pkg/proc/native/support_sentinel.go is not part of this model (it holds no code).
- Native.NativeThread.SingleStep: requires that the wait script ends the loop (`Settles`). The model does not describe a wait loop that never ends.
- Native.NativeThread.SingleStep: the register file handed to the resolver (`regs`) is an independent input. It is not read from the thread's `gregs`, and its `pc` is not tied to its R15 entry.
- Native.NativeThread.SetReg: the kernel's FP block is replaced as a whole by the written slice. A transfer shorter than the block is not modelled.
- Native.Blocked: the PC-to-function lookup is a parameter returning the function's name.
