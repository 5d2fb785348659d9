/** The ARM register blocks as PTRACE_GETREGSET / PTRACE_SETREGSET move them:
    the general block (NT_PRSTATUS, the 18 words of Uregs) and the VFP block
    (NT_FPREGSET: 32 eight-byte registers followed by the 4-byte FPSCR). */
module RegsArm {
  import opened Words
  import opened Errors

  const ARM_GREGS_SIZE: nat := 18 * 4
  const ARM_FPREGS_SIZE: nat := 32 * 8 + 4

  /** linutil.ARMPtraceRegs: R0..R15, CPSR and ORIG_R0. */
  type Uregs = s: seq<u32> | |s| == 18 witness seq(18, _ => 0)

  /** A register snapshot: the general words, and the FP block once it has
      been loaded (nil until then). */
  datatype Snapshot = Snapshot(uregs: Uregs, fpregset: Option<seq<u8>>)

  /** What linutil's ARMRegisters.SetReg reports after changing a snapshot:
      the changed snapshot, whether the FP block changed, and its error. */
  datatype RegUpdate = RegUpdate(snapshot: Snapshot, fpChanged: bool, err: Error)

  /** The bytes an iovec over a sequence of words covers, each word stored
      little-endian. */
  function RegsBytes(u: seq<u32>): (b: seq<u8>)
    ensures |b| == 4 * |u|
  {
    if u == [] then [] else LEBytes(u[0]) + RegsBytes(u[1..])
  }

  /** The words read back from such bytes. */
  function RegsWords(b: seq<u8>): (u: seq<u32>)
    requires |b| % 4 == 0
    ensures |u| == |b| / 4
  {
    if b == [] then [] else [LE32(b[..4])] + RegsWords(b[4..])
  }

  lemma {:induction false} RegsRoundTrip(u: seq<u32>)
    ensures RegsWords(RegsBytes(u)) == u
  {
    if u != [] {
      var b := RegsBytes(u);
      assert b[..4] == LEBytes(u[0]);
      assert b[4..] == RegsBytes(u[1..]);
      LE32RoundTrip(u[0]);
      RegsRoundTrip(u[1..]);
    }
  }

  /** The general-register iovec length is exactly the size of Uregs, so a
      GETREGSET followed by a SETREGSET moves every word and nothing more. */
  lemma GregsBlockCoversUregs(u: Uregs)
    ensures |RegsBytes(u)| == ARM_GREGS_SIZE
    ensures RegsWords(RegsBytes(u)) == u
  {
    RegsRoundTrip(u);
  }

  /** What ptraceGetFpRegset returns: the FP slice, or nil, and the error. */
  datatype FpRegsetResult = FpRegsetResult(fpregset: Option<seq<u8>>, err: Error)

  /** ptraceGetFpRegset after a GETREGSET that reported errno `code`, filled
      `block` and set the iovec length to `iovLen`. ENODEV (no VFP) is not an
      error; any other errno is returned with a nil slice; on success the
      slice is the block up to iovLen - 8, computed in uint32, so a length
      below 8 wraps around and the slice expression panics. */
  function PtraceGetFpRegset(code: nat, block: seq<u8>, iovLen: u32): (r: FpRegsetResult)
    requires |block| == ARM_FPREGS_SIZE
    ensures code == ENODEV ==> r == FpRegsetResult(None, Nil)
    ensures code != 0 && code != ENODEV ==> r == FpRegsetResult(None, Errno(code))
    ensures code == 0 && 8 <= iovLen <= ARM_FPREGS_SIZE + 8 ==>
      r == FpRegsetResult(Some(block[..iovLen - 8]), Nil)
    ensures code == 0 && !(8 <= iovLen <= ARM_FPREGS_SIZE + 8) ==> r == FpRegsetResult(None, IndexOutOfRange)
    ensures r.err != Errno(0)
  {
    var err := Errno(code);
    if err != Errno(0) then
      FpRegsetResult(None, if err == Errno(ENODEV) then Nil else err)
    else
      var hi := (iovLen - 8) % TWO32;
      if hi <= ARM_FPREGS_SIZE then FpRegsetResult(Some(block[..hi]), Nil)
      else FpRegsetResult(None, IndexOutOfRange)
  }

  /** Whatever the kernel reports, the slice is a prefix of the block that
      leaves out at least its last eight bytes: a full 260-byte transfer
      yields 252 bytes, 31 registers and the FPSCR's worth. */
  lemma FpRegsetIsShortPrefix(code: nat, block: seq<u8>, iovLen: u32)
    requires |block| == ARM_FPREGS_SIZE
    ensures var r := PtraceGetFpRegset(code, block, iovLen);
      r.fpregset.Some? ==> |r.fpregset.value| <= ARM_FPREGS_SIZE && r.fpregset.value <= block
    ensures code == 0 && iovLen == ARM_FPREGS_SIZE ==>
      PtraceGetFpRegset(code, block, iovLen).fpregset == Some(block[..31 * 8 + 4])
  {
  }

  /** The second half of restoreRegisters, given the error `setErr` that
      ptraceSetGRegs returned: it stops unless that error equals the raw
      Errno(0), otherwise writes the saved FP block (errno `fpCode`). The
      result is the kernel's FP block afterwards and the normalised error. */
  function RestoreFpStep(setErr: Error, fpregset: Option<seq<u8>>, fpCode: nat, current: seq<u8>): (r: (seq<u8>, Error))
    ensures setErr != Errno(0) ==> r == (current, setErr)
    ensures r.1 != Errno(0)
  {
    var (fp, e) :=
      if setErr != Errno(0) then (current, setErr)
      else if fpregset.Some? then
        if |fpregset.value| == 0 then (current, IndexOutOfRange)
        else (if fpCode == 0 then fpregset.value else current, Errno(fpCode))
      else (current, setErr);
    (fp, Normalise(e))
  }

  /** ptraceSetGRegs already turns success into nil, which is not Errno(0),
      so restoreRegisters never writes the FP block: its result is exactly
      the general-register write's. */
  lemma RestoreNeverWritesFp(setCode: nat, fpregset: Option<seq<u8>>, fpCode: nat, current: seq<u8>)
    ensures RestoreFpStep(SyscallErr(setCode), fpregset, fpCode, current) == (current, SyscallErr(setCode))
  {
  }
}
