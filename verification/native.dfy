/** The native Linux backend's view of a traced ARM process and its threads:
    breakpoint-emulated single-stepping, the resume hand-off, the memory
    access paths and the register write-backs. Every system call is an
    oracle: its reported errno or byte count is a parameter. */
module Native {
  import opened Words
  import opened Errors
  import opened Armasm
  import opened Tracee
  import opened NextPC
  import opened Step
  import opened RegsArm

  /** sys.SizeofPtr on 32-bit ARM. */
  const SizeofPtr: nat := 4

  /** The traced process: its pid, whether it has exited, the ids of its
      known threads, its memory, and the log of PTRACE_CONT requests issued
      to it as (thread id, signal), oldest first. */
  class Process {
    const pid: int
    var exited: bool
    var threads: set<int>
    var space: AddressSpace
    var conts: seq<(int, int)>

    constructor (pid: int, threads: set<int>, space: AddressSpace)
      ensures this.pid == pid && this.threads == threads && this.space == space
      ensures !exited && conts == []
    {
      this.pid := pid;
      this.threads := threads;
      this.space := space;
      exited := false;
      conts := [];
    }
  }

  /** The thread state letter of /proc/<tid>/status, as far as Stopped
      distinguishes it. */
  datatype OsState = TraceStop | TraceStopT | OtherState

  /** The two ways of moving bytes: process_vm_readv/writev, and word-wise
      PTRACE_PEEKDATA/POKEDATA. */
  datatype MemPath = BulkPath | PtracePath

  /** Stopped: the thread is stopped at the OS level exactly when its state
      is one of the two trace-stop letters. */
  function Stopped(state: OsState): (b: bool)
    ensures b <==> state != OtherState
  {
    state == TraceStop || state == TraceStopT
  }

  /** stop: send SIGSTOP to thread `tid` with tgkill, which reports errno
      `killCode`; a failure is reported together with the thread id. */
  function Stop(tid: int, killCode: nat): (e: Error)
    ensures e == Nil <==> killCode == 0
    ensures killCode != 0 ==> e == StopFailed(Errno(killCode), tid)
  {
    var err := SyscallErr(killCode);
    if err != Nil then StopFailed(err, tid) else Nil
  }

  /** Blocked: with readable registers, whether the function holding PC is
      one of the runtime's blocking calls. `pcToFunc` is the binary's PC to
      function-name lookup. */
  function Blocked(regs: Result<RegFile>, pcToFunc: u64 -> Option<string>): (b: bool)
    ensures regs.Err? ==> !b
    ensures regs.Ok? ==>
      (b <==> pcToFunc(regs.value.pc) in {Some("runtime.futex"), Some("runtime.usleep"), Some("runtime.clone")})
  {
    if regs.Err? then false
    else
      var fn := pcToFunc(regs.value.pc);
      fn.Some? && (fn.value == "runtime.futex" || fn.value == "runtime.usleep" || fn.value == "runtime.clone")
  }

  /** The hardware watchpoint state (num, debugVer, words). */
  datatype WatchpointState = WatchpointState(num: u8, debugVer: u8, words: seq<u64>)

  /** The hardware watchpoint entry points are not implemented on ARM: each
      returns a fixed error. */
  function GetWatchpoints(): (r: Result<WatchpointState>)
    ensures r.Err? && r.error != Nil
  {
    Err(Message("not implemented"))
  }

  function WriteHardwareBreakpoint(addr: u64, wtype: u8, idx: u8): (e: Error)
    ensures e != Nil
  {
    Message("Not implemented")
  }

  /** The same stub as writeHardwareBreakpoint: on ARM neither is
      implemented, and both only return an error. */
  function ClearHardwareBreakpoint(addr: u64, wtype: u8, idx: u8): (e: Error)
    ensures e != Nil
  {
    Message("not implemented")
  }

  /** The breakpoint found is identified by its address. Like
      GetWatchpoints, a stub that only returns an error. */
  function FindHardwareBreakpoint(): (r: Result<u64>)
    ensures r.Err? && r.error != Nil
  {
    Err(Message("not implemented"))
  }

  /** SetDX has no meaning on ARM. */
  function SetDX(dx: u64): (e: Error)
    ensures e != Nil && e.Message?
  {
    Message("not supported")
  }

  /** fpRegisters: the FP slice from ptraceGetFpRegset, with a returned
      error wrapped in a message. The out-of-range slice is a panic, not a
      returned error, so it leaves fpRegisters as it is. */
  function FpRegisters(code: nat, block: seq<u8>, iovLen: u32): (r: FpRegsetResult)
    requires |block| == ARM_FPREGS_SIZE
    ensures r.fpregset == PtraceGetFpRegset(code, block, iovLen).fpregset
    ensures r.err == Nil <==> PtraceGetFpRegset(code, block, iovLen).err == Nil
    ensures PtraceGetFpRegset(code, block, iovLen).err == IndexOutOfRange ==> r.err == IndexOutOfRange
    ensures PtraceGetFpRegset(code, block, iovLen).err !in {Nil, IndexOutOfRange} ==>
      r.err == Wrapped("could not get floating point registers", PtraceGetFpRegset(code, block, iovLen).err)
  {
    var g := PtraceGetFpRegset(code, block, iovLen);
    var err := if g.err == Nil || g.err == IndexOutOfRange then g.err
               else Wrapped("could not get floating point registers", g.err);
    FpRegsetResult(g.fpregset, err)
  }

  /** The candidate list, or the error, that single-stepping works from:
      the register read's error first, then the resolver's. */
  function Resolved(regs: Result<RegFile>, space: AddressSpace, decode: Word -> Result<Inst>): (r: Result<seq<u64>>)
    ensures r.Ok? ==> 1 <= |r.value|
  {
    if regs.Err? then Err(regs.error) else Candidates(regs.value, space, decode)
  }

  /** The patch loop's outcome for a resolved candidate list. */
  function Patched(pcs: seq<u64>, space: AddressSpace, trap: Word): PatchState
  {
    Patch(space, map[], TrapAddresses(pcs), trap)
  }

  /** Whether single-stepping gets as far as waiting: every trap planted and
      the thread continued. */
  predicate Waits(pcs: seq<u64>, space: AddressSpace, trap: Word, contCode: nat)
  {
    Patched(pcs, space, trap).err == Nil && contCode == 0
  }

  /** The wait result that ends the wait loop, classified. */
  function Outcome(events: seq<WaitResult>, pid: int, tid: int): (a: WaitAction)
    requires Settles(events, pid, tid)
    ensures !a.KeepWaiting?
  {
    Classify(events[FirstDecisive(events, pid, tid)], pid, tid)
  }

  /** Whether the stepped thread is still in a ptrace-stop when the deferred
      restore pokes through it. It is when no continue was issued (a patch
      failed), and when PTRACE_CONT failed with anything but ESRCH, the errno
      ptrace gives for a thread that is gone or not stopped. After a
      successful continue it is only when the wait loop ended on a stop of
      that thread. */
  predicate Held(pcs: seq<u64>, space: AddressSpace, trap: Word, contCode: nat, events: seq<WaitResult>, pid: int, tid: int)
    requires Settles(events, pid, tid)
  {
    if Patched(pcs, space, trap).err != Nil then true
    else if contCode != 0 then contCode != ESRCH
    else StopsThread(events, pid, tid)
  }

  /** A non-leader thread that exits while being stepped ends the wait loop
      as a thread gone, and one killed by a signal ends it as a finished
      step; either way it is no longer stopped, so the restore cannot poke
      through it. */
  lemma SteppedThreadGoneNotHeld(pcs: seq<u64>, space: AddressSpace, trap: Word, pid: int, tid: int, code: int, sig: int)
    requires tid != pid && Patched(pcs, space, trap).err == Nil
    ensures var exit := [Waited(tid, Some(Exited(code)))];
      Settles(exit, pid, tid) && Outcome(exit, pid, tid) == ThreadGone(tid) && !Held(pcs, space, trap, 0, exit, pid, tid)
    ensures var kill := [Waited(tid, Some(Signaled(sig)))];
      Settles(kill, pid, tid) && Outcome(kill, pid, tid) == StepDone && !Held(pcs, space, trap, 0, kill, pid, tid)
  {
    var exit, kill := [Waited(tid, Some(Exited(code)))], [Waited(tid, Some(Signaled(sig)))];
    assert !Classify(exit[0], pid, tid).KeepWaiting?;
    assert !Classify(kill[0], pid, tid).KeepWaiting?;
  }

  /** One thread of the traced process. `gregs` and `fpregs` are the register
      blocks the kernel holds for it. */
  class NativeThread {
    const id: int
    const dbp: Process
    var delayedSignal: int
    var running: bool
    var setbp: bool
    var gregs: Uregs
    var fpregs: seq<u8>

    constructor (id: int, dbp: Process, gregs: Uregs, fpregs: seq<u8>)
      ensures this.id == id && this.dbp == dbp && this.gregs == gregs && this.fpregs == fpregs
      ensures delayedSignal == 0 && !running && !setbp
    {
      this.id := id;
      this.dbp := dbp;
      this.gregs := gregs;
      this.fpregs := fpregs;
      delayedSignal := 0;
      running := false;
      setbp := false;
    }

    /** SoftExc: whether the last resume ended in a software exception. */
    function SoftExc(): (b: bool)
      reads this
      ensures b <==> setbp
    {
      setbp
    }

    /** resumeWithSig: the thread is marked running before PTRACE_CONT is
      issued, whatever that request reports (errno `contCode`). */
    method ResumeWithSig(sig: int, contCode: nat) returns (err: Error)
      modifies this`running, dbp`conts
      ensures running
      ensures dbp.conts == old(dbp.conts) + [(id, sig)]
      ensures err == SyscallErr(contCode)
    {
      running := true;
      dbp.conts := dbp.conts + [(id, sig)];
      err := SyscallErr(contCode);
    }

    /** resume: hand the pending signal to the continue and clear it. */
    method Resume(contCode: nat) returns (err: Error)
      modifies this`delayedSignal, this`running, dbp`conts
      ensures delayedSignal == 0 && running
      ensures dbp.conts == old(dbp.conts) + [(id, old(delayedSignal))]
      ensures err == SyscallErr(contCode)
    {
      var sig := delayedSignal;
      delayedSignal := 0;
      err := ResumeWithSig(sig, contCode);
    }

    /** ReadMemory of `size` bytes. The bulk path is tried first; `bulkN` is
      the count it reports, its error is dropped. The ptrace path, reporting
      `ptraceN` and `ptraceErr`, runs exactly when the bulk count is 0. */
    method ReadMemory(size: nat, bulkN: int, ptraceN: int, ptraceErr: Error)
      returns (n: int, err: Error, paths: seq<MemPath>)
      ensures dbp.exited ==> n == 0 && err == ProcessExited(dbp.pid, 0) && paths == []
      ensures !dbp.exited && size == 0 ==> n == 0 && err == Nil && paths == []
      ensures !dbp.exited && size > 0 && bulkN != 0 ==> paths == [BulkPath] && n == bulkN && err == Nil
      ensures !dbp.exited && size > 0 && bulkN == 0 ==>
        paths == [BulkPath, PtracePath] && n == ptraceN && err == ptraceErr
    {
      if dbp.exited {
        return 0, ProcessExited(dbp.pid, 0), [];
      }
      if size == 0 {
        return 0, Nil, [];
      }
      n, err, paths := bulkN, Nil, [BulkPath];
      if n == 0 {
        n, err := ptraceN, ptraceErr;
        paths := paths + [PtracePath];
      }
    }

    /** WriteMemory of `size` bytes. The bulk path cannot write read-only
      pages, so it is only tried for more than a pointer's worth of bytes;
      the ptrace path runs whenever nothing has been written by then. */
    method WriteMemory(size: nat, bulkN: int, ptraceN: int, ptraceErr: Error)
      returns (written: int, err: Error, paths: seq<MemPath>)
      ensures dbp.exited ==> written == 0 && err == ProcessExited(dbp.pid, 0) && paths == []
      ensures !dbp.exited && size == 0 ==> written == 0 && err == Nil && paths == []
      ensures !dbp.exited && size > 0 ==> (BulkPath in paths <==> size > SizeofPtr)
      ensures !dbp.exited && size > 0 ==> (PtracePath in paths <==> size <= SizeofPtr || bulkN == 0)
      ensures PtracePath in paths ==> written == ptraceN && err == ptraceErr && paths[|paths| - 1] == PtracePath
      ensures PtracePath !in paths && paths != [] ==> written == bulkN && err == Nil
    {
      if dbp.exited {
        return 0, ProcessExited(dbp.pid, 0), [];
      }
      if size == 0 {
        return 0, Nil, [];
      }
      written, err, paths := 0, Nil, [];
      if size > SizeofPtr {
        written := bulkN;
        paths := [BulkPath];
      }
      if written == 0 {
        written, err := ptraceN, ptraceErr;
        paths := paths + [PtracePath];
      }
    }

    /** registers: a fresh snapshot of the general block (GETREGSET reporting
      errno `getCode`), with the FP block not yet loaded. */
    method Registers(getCode: nat) returns (r: Result<Snapshot>)
      ensures getCode == 0 ==> r == Ok(Snapshot(gregs, None))
      ensures getCode != 0 ==> r == Err(Errno(getCode))
    {
      var err := SyscallErr(getCode);
      if err != Nil {
        return Err(err);
      }
      return Ok(Snapshot(gregs, None));
    }

    /** ptraceSetGRegs: the kernel takes the words when SETREGSET succeeds. */
    method SetGRegs(regs: Uregs, setCode: nat) returns (err: Error)
      modifies this`gregs
      ensures err == SyscallErr(setCode)
      ensures gregs == if setCode == 0 then regs else old(gregs)
    {
      err := SyscallErr(setCode);
      if err == Nil {
        gregs := regs;
      }
    }

    /** setPC: fetch the snapshot, store the low 32 bits of `pc` in R15 and
      write the snapshot back. */
    method SetPC(pc: u64, getCode: nat, setCode: nat) returns (err: Error)
      modifies this`gregs
      ensures getCode != 0 ==> err == Errno(getCode) && gregs == old(gregs)
      ensures getCode == 0 ==> err == SyscallErr(setCode)
      ensures getCode == 0 && setCode == 0 ==> gregs == old(gregs)[15 := Trunc32(pc)]
      ensures setCode != 0 ==> gregs == old(gregs)
    {
      var ir := Registers(getCode);
      if ir.Err? {
        return ir.error;
      }
      var r := ir.value.uregs[15 := Trunc32(pc)];
      err := SetGRegs(r, setCode);
    }

    /** SetSP: the same for the stack pointer, R13. */
    method SetSP(sp: u64, getCode: nat, setCode: nat) returns (err: Error)
      modifies this`gregs
      ensures getCode != 0 ==> err == Errno(getCode) && gregs == old(gregs)
      ensures getCode == 0 ==> err == SyscallErr(setCode)
      ensures getCode == 0 && setCode == 0 ==> gregs == old(gregs)[13 := Trunc32(sp)]
      ensures setCode != 0 ==> gregs == old(gregs)
    {
      var ir := Registers(getCode);
      if ir.Err? {
        return ir.error;
      }
      var r := ir.value.uregs[13 := Trunc32(sp)];
      err := SetGRegs(r, setCode);
    }

    /** SetReg: `apply` is the snapshot's own SetReg for the register being
      set. The general block is written back after a successful change; the
      FP block only after that write succeeds, and only when the change
      touched it and the snapshot holds one (an empty one panics). */
    method SetReg(apply: Snapshot -> RegUpdate, getCode: nat, setCode: nat, fpCode: nat) returns (err: Error)
      modifies this`gregs, this`fpregs
      ensures getCode != 0 ==> err == Errno(getCode) && gregs == old(gregs) && fpregs == old(fpregs)
      ensures getCode == 0 && apply(Snapshot(old(gregs), None)).err != Nil ==>
        err == apply(Snapshot(old(gregs), None)).err && gregs == old(gregs) && fpregs == old(fpregs)
      ensures getCode == 0 && apply(Snapshot(old(gregs), None)).err == Nil ==>
        var u := apply(Snapshot(old(gregs), None));
        var flush := u.fpChanged && u.snapshot.fpregset.Some?;
        && gregs == (if setCode == 0 then u.snapshot.uregs else old(gregs))
        && (setCode != 0 ==> err == Errno(setCode) && fpregs == old(fpregs))
        && (setCode == 0 && !flush ==> err == Nil && fpregs == old(fpregs))
        && (setCode == 0 && flush && u.snapshot.fpregset.value == [] ==> err == IndexOutOfRange && fpregs == old(fpregs))
        && (setCode == 0 && flush && u.snapshot.fpregset.value != [] ==>
              err == SyscallErr(fpCode) && fpregs == (if fpCode == 0 then u.snapshot.fpregset.value else old(fpregs)))
    {
      var ir := Registers(getCode);
      if ir.Err? {
        return ir.error;
      }
      var u := apply(ir.value);
      if u.err != Nil {
        return u.err;
      }
      err := SetGRegs(u.snapshot.uregs, setCode);
      if err != Errno(0) && err != Nil {
        return;
      }
      if u.fpChanged && u.snapshot.fpregset.Some? {
        var block := u.snapshot.fpregset.value;
        if |block| == 0 {
          return IndexOutOfRange;
        }
        err := Errno(fpCode);
        if fpCode == 0 {
          fpregs := block;
        }
      }
      err := Normalise(err);
    }

    /** restoreRegisters: write back a saved snapshot. The test that should
      let the FP block follow compares against Errno(0), which the already
      normalised result never is, so only the general block is restored. */
    method RestoreRegisters(saved: Snapshot, setCode: nat, fpCode: nat) returns (err: Error)
      modifies this`gregs, this`fpregs
      ensures err == SyscallErr(setCode)
      ensures gregs == (if setCode == 0 then saved.uregs else old(gregs))
      ensures fpregs == old(fpregs)
    {
      err := SetGRegs(saved.uregs, setCode);
      RestoreNeverWritesFp(setCode, saved.fpregset, fpCode, fpregs);
      var out := RestoreFpStep(err, saved.fpregset, fpCode, fpregs);
      fpregs := out.0;
      err := out.1;
    }

    /** resolvePC: fetch and decode the instruction at PC, then list the
      fall-through address and the family's extra target. */
    method ResolvePC(rf: RegFile, decode: Word -> Result<Inst>) returns (r: Result<seq<u64>>)
      ensures r == Candidates(rf, dbp.space, decode)
    {
      var fetched := Peek(dbp.space, Trunc32(rf.pc));
      if fetched.Err? {
        return Err(fetched.error);
      }
      var nextPcs: seq<u64> := [Wrap64(rf.pc + MaxInstrLen)];
      var decoded := decode(fetched.value);
      if decoded.Err? {
        return Err(decoded.error);
      }
      var inst := decoded.value;
      CandidatesOfDecoded(rf, dbp.space, decode, inst);
      var extra: Result<Option<u64>>;
      if inst.op in {B, BL, BLX, BX} {
        extra := BranchTarget(inst.args[0], rf);
      } else if inst.op == POP {
        extra := PopTargetOf(inst.args[0], rf);
      } else if inst.op == LDR {
        extra := LdrTargetOf(inst.args, rf);
      } else if inst.op in {MOV, ADD} {
        extra := MovAddTargetOf(inst.args, rf);
      } else {
        extra := Ok(None);
      }
      assert extra == ExtraTarget(inst, rf, dbp.space);
      if extra.Err? {
        return Err(extra.error);
      }
      assert nextPcs == [Fallthrough(rf)];
      if extra.value.Some? {
        nextPcs := nextPcs + [extra.value.value];
        assert nextPcs == [Fallthrough(rf), extra.value.value];
      }
      return Ok(nextPcs);
    }

    /** The POP case of resolvePC: find the slot PC is loaded from, then
      load the word there. */
    method PopTargetOf(arg: Arg, rf: RegFile) returns (r: Result<Option<u64>>)
      ensures r == PopTarget(arg, rf, dbp.space)
    {
      if !(arg.RegList? && Bit(arg.bits, PC)) {
        return Ok(None);
      }
      var sp := Get(rf, SP);
      if sp.Err? {
        return Err(sp.error);
      }
      var pc := PopSlotOf(sp.value, arg.bits);
      var mem := Peek(dbp.space, Trunc32(pc));
      if mem.Err? {
        return Err(mem.error);
      }
      return Ok(Some(LE32(mem.value)));
    }

    /** The counting loop of the POP case: visit the listed registers below
      PC one bit at a time, stepping the address a word per register. */
    method PopSlotOf(sp: u64, bits: nat) returns (pc: u64)
      ensures pc == PopSlot(sp, bits)
    {
      pc := sp;
      for i := 0 to PC
        invariant pc == Wrap64(sp + MaxInstrLen * CountBelow(bits, i))
      {
        PopSlotStep(sp, bits, i);
        if Bit(bits, i) {
          pc := Wrap64(pc + MaxInstrLen);
        }
      }
    }

    /** The LDR case of resolvePC: form the load address from the base, the
      shifted index or the offset, then load the word there. */
    method LdrTargetOf(args: Args, rf: RegFile) returns (r: Result<Option<u64>>)
      ensures r == LdrTarget(args, rf, dbp.space)
    {
      if !(args[0] == RegArg(PC) && args[1].Mem?) {
        return Ok(None);
      }
      var m := args[1];
      var base := Get(rf, m.base);
      if base.Err? {
        return Err(base.error);
      }
      var pc := base.value;
      if m.mode == AddrOffset || m.mode == AddrPreIndex {
        if m.sign != 0 {
          var idx := Get(rf, m.index);
          if idx.Err? {
            return Err(idx.error);
          }
          var shifted := ShiftIndex(idx.value, m.shift, m.count);
          if m.sign < 0 {
            pc := Wrap64(pc - shifted);
          } else {
            pc := Wrap64(pc + shifted);
          }
        } else {
          pc := Wrap64(pc + m.offset);
        }
      }
      assert LoadAddress(m, rf) == Ok(pc);
      var mem := Peek(dbp.space, Trunc32(pc));
      if mem.Err? {
        return Err(mem.error);
      }
      return Ok(Some(LE32(mem.value)));
    }

    /** The MOV and ADD case of resolvePC: add up the operands after the
      destination, left to right, stopping at the first unreadable register. */
    method MovAddTargetOf(args: Args, rf: RegFile) returns (r: Result<Option<u64>>)
      ensures r == MovAddTarget(args, rf)
    {
      if args[0] != RegArg(PC) {
        return Ok(None);
      }
      var ops := args[1..];
      var pc: u64 := 0;
      for k := 0 to |ops|
        invariant OperandSum(ops[..k], rf) == Ok(pc)
      {
        assert ops[..k + 1][..k] == ops[..k];
        var op := ops[k];
        if op.Imm? {
          pc := Wrap64(pc + op.imm);
        } else if op.RegArg? {
          var v := Get(rf, op.reg);
          if v.Err? {
            OperandSumPrefixError(ops, k + 1, rf);
            return Err(v.error);
          }
          pc := Wrap64(pc + v.value);
        }
      }
      assert ops[..|ops|] == ops;
      return Ok(Some(pc));
    }

    /** The patch loop of singleStep, over the candidate addresses in order. */
    method PatchTraps(addrs: seq<u32>, trap: Word) returns (saved: map<u32, Word>, err: Error)
      modifies dbp`space
      ensures PatchState(dbp.space, saved, err) == Patch(old(dbp.space), map[], addrs, trap)
    {
      saved, err := map[], Nil;
      var i := 0;
      while i < |addrs|
        invariant 0 <= i <= |addrs|
        invariant Patch(dbp.space, saved, addrs[i..], trap) == Patch(old(dbp.space), map[], addrs, trap)
      {
        var a := addrs[i];
        assert addrs[i..][1..] == addrs[i + 1..];
        var original := Peek(dbp.space, a);
        if original.Err? {
          return saved, original.error;
        }
        var poked := Poke(dbp.space, a, trap);
        if poked.Err? {
          return saved, poked.error;
        }
        dbp.space := poked.value;
        saved := saved[a := original.value];
        i := i + 1;
      }
    }

    /** The deferred restore of singleStep: poke every recorded original
      back through this thread, in whatever order the map yields them. Each
      poke's error replaces `err`, so the last poke decides the result. When
      the thread is not `held` in a ptrace-stop, every poke fails with
      ESRCH. */
    method RestoreTraps(saved: map<u32, Word>, err0: Error, held: bool) returns (err: Error)
      modifies dbp`space
      ensures dbp.space == if held then Restored(old(dbp.space), saved) else old(dbp.space)
      ensures saved == map[] ==> err == err0
      ensures saved != map[] && held && (forall a :: a in saved ==> Pokeable(old(dbp.space), a)) ==> err == Nil
      ensures saved != map[] && !(held && old(dbp.space).alive) ==> err == Errno(ESRCH)
    {
      err := err0;
      var todo := saved.Keys;
      ghost var space0 := dbp.space;
      while todo != {}
        invariant todo <= saved.Keys
        invariant dbp.space == if held then RestoredPart(space0, saved, saved.Keys - todo) else space0
        invariant todo == saved.Keys ==> err == err0
        invariant todo != saved.Keys && held && (forall a :: a in saved ==> Pokeable(space0, a)) ==> err == Nil
        invariant todo != saved.Keys && !(held && space0.alive) ==> err == Errno(ESRCH)
        decreases todo
      {
        var a :| a in todo;
        assert Pokeable(dbp.space, a) == Pokeable(space0, a);
        RestoredPartStep(space0, saved, saved.Keys - todo, a);
        assert saved.Keys - (todo - {a}) == (saved.Keys - todo) + {a};
        var poked := if held then Poke(dbp.space, a, saved[a]) else Err(Errno(ESRCH));
        if poked.Ok? {
          dbp.space := poked.value;
          err := Nil;
        } else {
          err := poked.error;
        }
        todo := todo - {a};
      }
      assert saved.Keys - todo == saved.Keys;
    }

    /** The wait loop of singleStep: wait until a result ends the loop, then
      act on it. The leader's exit marks the process exited and reaped; the
      exit of another thread forgets that thread. `held` tells whether this
      thread is left in a ptrace-stop. */
    method AwaitStop(events: seq<WaitResult>) returns (err: Error, held: bool)
      requires Settles(events, dbp.pid, id)
      modifies dbp`exited, dbp`space, dbp`threads
      ensures held == StopsThread(events, dbp.pid, id)
      ensures var act := Outcome(events, dbp.pid, id);
        && (act.Fail? ==> err == act.e)
        && (act.LeaderExited? ==> err == ProcessExited(dbp.pid, act.status))
        && (act.ThreadGone? || act.StepDone? ==> err == Nil)
        && dbp.exited == (old(dbp.exited) || act.LeaderExited?)
        && dbp.space == (if act.LeaderExited? then old(dbp.space).(alive := false) else old(dbp.space))
        && dbp.threads == (if act.ThreadGone? then old(dbp.threads) - {act.tid} else old(dbp.threads))
    {
      ghost var k := FirstDecisive(events, dbp.pid, id);
      var i := 0;
      while Classify(events[i], dbp.pid, id).KeepWaiting?
        invariant 0 <= i <= k
        decreases k - i
      {
        i := i + 1;
      }
      var act := Classify(events[i], dbp.pid, id);
      var w := events[i];
      held := w.Waited? && w.wpid == id && w.status.Some? && w.status.value.StoppedBy?;
      if act.Fail? {
        err := act.e;
      } else if act.LeaderExited? {
        dbp.exited := true;
        dbp.space := dbp.space.(alive := false);
        err := ProcessExited(dbp.pid, act.status);
      } else if act.ThreadGone? {
        dbp.threads := dbp.threads - {act.tid};
        err := Nil;
      } else {
        err := Nil;
      }
    }

    /** singleStep. ARM has no hardware single-step, so a trap is planted at
      every candidate next PC, the thread is continued and waited for, and
      the originals are put back on every way out once a patch was tried.
      `regs` is the register read, `trap` the breakpoint instruction,
      `contCode` the errno of PTRACE_CONT, `stores` the words the thread
      writes while it runs and `events` what successive waits report. */
    method SingleStep(regs: Result<RegFile>, decode: Word -> Result<Inst>, trap: Word, contCode: nat,
                      stores: map<u32, Word>, events: seq<WaitResult>) returns (err: Error)
      requires Settles(events, dbp.pid, id)
      modifies dbp`space, dbp`conts, dbp`exited, dbp`threads
      ensures Resolved(regs, old(dbp.space), decode).Err? ==>
        && err == Resolved(regs, old(dbp.space), decode).error
        && dbp.space == old(dbp.space) && dbp.conts == old(dbp.conts)
        && dbp.exited == old(dbp.exited) && dbp.threads == old(dbp.threads)
      ensures Resolved(regs, old(dbp.space), decode).Ok? ==>
        var pcs := Resolved(regs, old(dbp.space), decode).value;
        var p := Patched(pcs, old(dbp.space), trap);
        var waits := Waits(pcs, old(dbp.space), trap, contCode);
        var held := Held(pcs, old(dbp.space), trap, contCode, events, dbp.pid, id);
        && dbp.conts == old(dbp.conts) + (if p.err == Nil then [(id, 0)] else [])
        && (p.saved == map[] ==> err == p.err && err != Nil && dbp.space == old(dbp.space))
        && (p.saved != map[] ==> err == (if dbp.space.alive && held then Nil else Errno(ESRCH)))
        && (dbp.space.alive <==> !(waits && Outcome(events, dbp.pid, id).LeaderExited?))
        && dbp.space == StepSpace(old(dbp.space), TrapAddresses(pcs), trap, waits, stores,
                                  waits && Outcome(events, dbp.pid, id).LeaderExited?, held)
        && dbp.exited == (old(dbp.exited) || (waits && Outcome(events, dbp.pid, id).LeaderExited?))
        && dbp.threads == (if waits && Outcome(events, dbp.pid, id).ThreadGone?
                           then old(dbp.threads) - {Outcome(events, dbp.pid, id).tid} else old(dbp.threads))
    {
      if regs.Err? {
        return regs.error;
      }
      var pcs := ResolvePC(regs.value, decode);
      if pcs.Err? {
        return pcs.error;
      }
      err := StepFrom(pcs.value, trap, contCode, stores, events);
    }

    /** The middle of singleStep: continue the thread when every trap is in
      place, and wait for it when the continue succeeded. Meanwhile the
      thread runs and makes the stores `stores`. */
    method ContinueAndWait(patchErr: Error, contCode: nat, stores: map<u32, Word>, events: seq<WaitResult>)
      returns (err: Error, held: bool)
      requires Settles(events, dbp.pid, id)
      modifies dbp`space, dbp`conts, dbp`exited, dbp`threads
      ensures held == if patchErr != Nil then true else if contCode != 0 then contCode != ESRCH
                      else StopsThread(events, dbp.pid, id)
      ensures dbp.conts == old(dbp.conts) + (if patchErr == Nil then [(id, 0)] else [])
      ensures patchErr != Nil ==> err == patchErr
      ensures patchErr == Nil && contCode != 0 ==> err == Errno(contCode)
      ensures !(patchErr == Nil && contCode == 0) ==>
        dbp.space == old(dbp.space) && dbp.exited == old(dbp.exited) && dbp.threads == old(dbp.threads)
      ensures patchErr == Nil && contCode == 0 ==>
        var act := Outcome(events, dbp.pid, id);
        && (act.Fail? ==> err == act.e)
        && (act.LeaderExited? ==> err == ProcessExited(dbp.pid, act.status))
        && (act.ThreadGone? || act.StepDone? ==> err == Nil)
        && dbp.exited == (old(dbp.exited) || act.LeaderExited?)
        && dbp.space == (if act.LeaderExited? then Execute(old(dbp.space), stores).(alive := false)
                         else Execute(old(dbp.space), stores))
        && dbp.threads == (if act.ThreadGone? then old(dbp.threads) - {act.tid} else old(dbp.threads))
    {
      err, held := patchErr, true;
      if err == Nil {
        err := SyscallErr(contCode);
        dbp.conts := dbp.conts + [(id, 0)];
        held := contCode != ESRCH;
      }
      if err == Nil {
        dbp.space := Execute(dbp.space, stores);
        err, held := AwaitStop(events);
      }
    }

    /** singleStep once the candidates are known: patch, continue, wait, and
      restore on the way out. */
    method StepFrom(pcs: seq<u64>, trap: Word, contCode: nat, stores: map<u32, Word>, events: seq<WaitResult>)
      returns (err: Error)
      requires 1 <= |pcs| && dbp.space.alive && Settles(events, dbp.pid, id)
      modifies dbp`space, dbp`conts, dbp`exited, dbp`threads
      ensures var p := Patched(pcs, old(dbp.space), trap);
        dbp.conts == old(dbp.conts) + (if p.err == Nil then [(id, 0)] else [])
      ensures var p := Patched(pcs, old(dbp.space), trap);
        p.saved == map[] ==> err == p.err && err != Nil && dbp.space == old(dbp.space)
      ensures var p := Patched(pcs, old(dbp.space), trap);
        p.saved != map[] ==>
          err == (if dbp.space.alive && Held(pcs, old(dbp.space), trap, contCode, events, dbp.pid, id) then Nil else Errno(ESRCH))
      ensures dbp.space.alive <==> !(Waits(pcs, old(dbp.space), trap, contCode) && Outcome(events, dbp.pid, id).LeaderExited?)
      ensures dbp.space == StepSpace(old(dbp.space), TrapAddresses(pcs), trap, Waits(pcs, old(dbp.space), trap, contCode),
                                     stores, Waits(pcs, old(dbp.space), trap, contCode) && Outcome(events, dbp.pid, id).LeaderExited?,
                                     Held(pcs, old(dbp.space), trap, contCode, events, dbp.pid, id))
      ensures dbp.exited == (old(dbp.exited) || (Waits(pcs, old(dbp.space), trap, contCode) && Outcome(events, dbp.pid, id).LeaderExited?))
      ensures dbp.threads == (if Waits(pcs, old(dbp.space), trap, contCode) && Outcome(events, dbp.pid, id).ThreadGone?
                              then old(dbp.threads) - {Outcome(events, dbp.pid, id).tid} else old(dbp.threads))
    {
      ghost var space0 := dbp.space;
      var addrs := TrapAddresses(pcs);
      var saved;
      saved, err := PatchTraps(addrs, trap);
      ghost var p := Patch(space0, map[], addrs, trap);
      assert p == Patched(pcs, space0, trap);
      assert dbp.space == p.space && saved == p.saved && err == p.err;
      assert p.err == Nil ==> saved != map[] by {
        if p.err == Nil {
          assert addrs[0] in saved;
        }
      }
      var held;
      err, held := ContinueAndWait(err, contCode, stores, events);
      ghost var waits := Waits(pcs, space0, trap, contCode);
      ghost var run := if waits then Execute(p.space, stores) else p.space;
      ghost var waited := dbp.space;
      assert waited == run || waited == run.(alive := false);
      assert forall a :: a in saved ==> Pokeable(space0, a);
      assert waited.alive ==> forall a :: a in saved ==> Pokeable(waited, a);
      err := RestoreTraps(saved, err, held);
    }
  }
}
