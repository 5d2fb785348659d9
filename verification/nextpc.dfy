/** The candidate next program counters of one ARM instruction: the
    specification of the resolver that single-step emulation plants its
    temporary traps from. The list starts with the fall-through address and
    holds at most one more target, computed per instruction family. */
module NextPC {
  import opened Words
  import opened Errors
  import opened Armasm
  import opened Tracee

  /** Arch.MaxInstructionLength() for ARM mode: every instruction is 4 bytes,
      and the resolver also uses this as the size of one stacked register. */
  const MaxInstrLen: nat := 4

  /** Whether bit i of `bits` is set. */
  predicate Bit(bits: nat, i: nat)
  {
    (bits / Pow2(i)) % 2 == 1
  }

  /** How many of bits 0 .. n-1 of `bits` are set. */
  function CountBelow(bits: nat, n: nat): (c: nat)
    ensures c <= n
  {
    if n == 0 then 0 else CountBelow(bits, n - 1) + (if Bit(bits, n - 1) then 1 else 0)
  }

  /** The set of register numbers below n that a register list names. */
  function ListedBelow(bits: nat, n: nat): set<nat>
  {
    set i: nat | i < n && Bit(bits, i)
  }

  lemma ListedBelowStep(bits: nat, n: nat)
    ensures ListedBelow(bits, n + 1) == ListedBelow(bits, n) + (if Bit(bits, n) then {n} else {})
  {
  }

  /** CountBelow counts exactly the listed registers below n. */
  lemma {:induction false} CountBelowIsCardinality(bits: nat, n: nat)
    ensures CountBelow(bits, n) == |ListedBelow(bits, n)|
  {
    if n > 0 {
      CountBelowIsCardinality(bits, n - 1);
      ListedBelowStep(bits, n - 1);
      assert n - 1 !in ListedBelow(bits, n - 1);
    }
  }

  /** regs.PC() + nextInstrLen, the fall-through candidate. */
  function Fallthrough(rf: RegFile): u64
  {
    Wrap64(rf.pc + MaxInstrLen)
  }

  /** The little-endian word at uintptr(addr), zero-extended to 64 bits. */
  function LoadWord(space: AddressSpace, addr: u64): (r: Result<u64>)
    ensures r.Ok? <==> space.alive && Trunc32(addr) in space.words
    ensures r.Ok? ==> r.value == LE32(space.words[Trunc32(addr)])
  {
    match Peek(space, Trunc32(addr))
    case Ok(w) => Ok(LE32(w))
    case Err(e) => Err(e)
  }

  /** The extra candidate of B, BL, BLX and BX, from their first argument. */
  function BranchTarget(arg: Arg, rf: RegFile): (r: Result<Option<u64>>)
    ensures r == Ok(None) <==> !(arg.Imm? || arg.RegArg? || arg.PCRel?)
    ensures r.Err? <==> arg.RegArg? && arg.reg !in rf.values
    ensures r.Err? ==> r.error == UnknownRegister(arg.reg)
  {
    match arg
    case Imm(v) => Ok(Some(v))
    case RegArg(r) =>
      (match Get(rf, r)
       case Ok(v) => Ok(Some(v))
       case Err(e) => Err(e))
    case PCRel(off) => Ok(Some(Wrap64(rf.pc + off)))
    case _ => Ok(None)
  }

  /** The stack slot POP loads PC from: SP plus one word for every listed
      register below PC. */
  function PopSlot(sp: u64, bits: nat): u64
  {
    Wrap64(sp + MaxInstrLen * CountBelow(bits, PC))
  }

  /** One bit of the slot computation: the slot below i + 1 is the slot
      below i, a word further when bit i is set. */
  lemma PopSlotStep(sp: u64, bits: nat, i: nat)
    ensures Wrap64(sp + MaxInstrLen * CountBelow(bits, i + 1)) ==
      if Bit(bits, i) then Wrap64(Wrap64(sp + MaxInstrLen * CountBelow(bits, i)) + MaxInstrLen)
      else Wrap64(sp + MaxInstrLen * CountBelow(bits, i))
  {
    var c := CountBelow(bits, i);
    assert CountBelow(bits, i + 1) == c + (if Bit(bits, i) then 1 else 0);
    ModAddLeft(sp + MaxInstrLen * c, MaxInstrLen);
  }

  /** The extra candidate of POP: the word at PopSlot when the list holds PC. */
  function PopTarget(arg: Arg, rf: RegFile, space: AddressSpace): (r: Result<Option<u64>>)
    ensures r == Ok(None) <==> !(arg.RegList? && Bit(arg.bits, PC))
    ensures arg.RegList? && Bit(arg.bits, PC) && SP !in rf.values ==> r == Err(UnknownRegister(SP))
    ensures r.Err? ==> r.error == UnknownRegister(SP) || r.error == Errno(ESRCH) || r.error == Errno(EIO)
  {
    if arg.RegList? && Bit(arg.bits, PC) then
      match Get(rf, SP)
      case Err(e) => Err(e)
      case Ok(sp) =>
        match LoadWord(space, PopSlot(sp, arg.bits))
        case Err(e) => Err(e)
        case Ok(v) => Ok(Some(v))
    else Ok(None)
  }

  /** The index register's value after the shift of a Mem argument: a left
      shift, a logical right shift for both right-shift kinds, and a 64-bit
      rotation right for both rotation kinds. */
  function ShiftIndex(idx: u64, shift: Shift, count: u8): (r: u64)
    ensures count == 0 ==> r == idx
    ensures shift == ShiftRight || shift == ShiftRightSigned ==> r <= idx
  {
    if shift != ShiftLeft || count != 0 then
      match shift
      case ShiftLeft => Shl64(idx, count)
      case ShiftRight => Shr64(idx, count)
      case ShiftRightSigned => Shr64(idx, count)
      case RotateRight => RotateLeft64(idx, -(count as int))
      case RotateRightExt => RotateLeft64(idx, -(count as int))
    else idx
  }

  /** The address LDR loads from, for a Mem argument `m`: in offset and
      pre-index modes the base plus or minus the shifted index register (Sign
      non-zero) or plus the signed immediate offset (Sign zero); in every other
      mode the base alone. */
  function LoadAddress(m: Arg, rf: RegFile): (r: Result<u64>)
    requires m.Mem?
    ensures m.base !in rf.values ==> r == Err(UnknownRegister(m.base))
    ensures r.Err? ==> r.error == UnknownRegister(m.base) || (r.error == UnknownRegister(m.index) && m.index !in rf.values)
  {
    match Get(rf, m.base)
    case Err(e) => Err(e)
    case Ok(base) =>
      if m.mode == AddrOffset || m.mode == AddrPreIndex then
        if m.sign != 0 then
          match Get(rf, m.index)
          case Err(e) => Err(e)
          case Ok(idx) =>
            var shifted := ShiftIndex(idx, m.shift, m.count);
            Ok(if m.sign < 0 then Wrap64(base - shifted) else Wrap64(base + shifted))
        else Ok(Wrap64(base + m.offset))
      else Ok(base)
  }

  /** The extra candidate of LDR: when it loads PC from memory, the word at
      the load address. */
  function LdrTarget(args: Args, rf: RegFile, space: AddressSpace): (r: Result<Option<u64>>)
    ensures r == Ok(None) <==> !(args[0] == RegArg(PC) && args[1].Mem?)
  {
    if args[0] == RegArg(PC) && args[1].Mem? then
      match LoadAddress(args[1], rf)
      case Err(e) => Err(e)
      case Ok(addr) =>
        match LoadWord(space, addr)
        case Err(e) => Err(e)
        case Ok(v) => Ok(Some(v))
    else Ok(None)
  }

  /** The sum, modulo 2^64, of the immediate and register operands among
      `ops`, left to right; the first register that cannot be read is the
      error. Other operand kinds add nothing. */
  function OperandSum(ops: seq<Arg>, rf: RegFile): (r: Result<u64>)
    ensures r.Err? ==> r.error.UnknownRegister? && r.error.reg !in rf.values
  {
    if ops == [] then Ok(0)
    else
      match OperandSum(ops[..|ops| - 1], rf)
      case Err(e) => Err(e)
      case Ok(s) => AddOperand(s, ops[|ops| - 1], rf)
  }

  /** One operand added to the running sum. */
  function AddOperand(s: u64, op: Arg, rf: RegFile): (r: Result<u64>)
    ensures r.Err? <==> op.RegArg? && op.reg !in rf.values
    ensures r.Err? ==> r.error == UnknownRegister(op.reg)
  {
    match op
    case Imm(v) => Ok(Wrap64(s + v))
    case RegArg(r) =>
      (match Get(rf, r)
       case Err(e) => Err(e)
       case Ok(v) => Ok(Wrap64(s + v)))
    case _ => Ok(s)
  }

  /** The extra candidate of MOV and ADD into PC: the sum of the operands
      after the destination. */
  function MovAddTarget(args: Args, rf: RegFile): (r: Result<Option<u64>>)
    ensures r == Ok(None) <==> args[0] != RegArg(PC)
    ensures r.Err? ==> r.error.UnknownRegister? && r.error.reg !in rf.values
  {
    if args[0] == RegArg(PC) then
      match OperandSum(args[1..], rf)
      case Err(e) => Err(e)
      case Ok(v) => Ok(Some(v))
    else Ok(None)
  }

  /** The candidate an instruction adds after the fall-through, if any. */
  function ExtraTarget(inst: Inst, rf: RegFile, space: AddressSpace): Result<Option<u64>>
  {
    match inst.op
    case B => BranchTarget(inst.args[0], rf)
    case BL => BranchTarget(inst.args[0], rf)
    case BLX => BranchTarget(inst.args[0], rf)
    case BX => BranchTarget(inst.args[0], rf)
    case POP => PopTarget(inst.args[0], rf, space)
    case LDR => LdrTarget(inst.args, rf, space)
    case MOV => MovAddTarget(inst.args, rf)
    case ADD => MovAddTarget(inst.args, rf)
    case OtherOp => Ok(None)
  }

  /** resolvePC: fetch the instruction word at PC, decode it, and list the
      fall-through address followed by the family's extra target. Any failed
      fetch, decode, register read or memory read is the result instead. */
  function Candidates(rf: RegFile, space: AddressSpace, decode: Word -> Result<Inst>): (r: Result<seq<u64>>)
    ensures r.Ok? ==> 1 <= |r.value| <= 2 && r.value[0] == Fallthrough(rf)
    ensures r.Ok? ==> Trunc32(rf.pc) in space.words && space.alive
  {
    match Peek(space, Trunc32(rf.pc))
    case Err(e) => Err(e)
    case Ok(bytes) =>
      match decode(bytes)
      case Err(e) => Err(e)
      case Ok(inst) =>
        match ExtraTarget(inst, rf, space)
        case Err(e) => Err(e)
        case Ok(None) => Ok([Fallthrough(rf)])
        case Ok(Some(t)) => Ok([Fallthrough(rf), t])
  }

  /** The word at PC is readable and decodes to `inst`. */
  predicate Decodes(rf: RegFile, space: AddressSpace, decode: Word -> Result<Inst>, inst: Inst)
  {
    space.alive && Trunc32(rf.pc) in space.words && decode(space.words[Trunc32(rf.pc)]) == Ok(inst)
  }

  /** Once the instruction is fetched and decoded, the candidates are the
      fall-through followed by the family's extra target, if any. */
  lemma CandidatesOfDecoded(rf: RegFile, space: AddressSpace, decode: Word -> Result<Inst>, inst: Inst)
    requires Decodes(rf, space, decode, inst)
    ensures ExtraTarget(inst, rf, space).Err? ==> Candidates(rf, space, decode) == Err(ExtraTarget(inst, rf, space).error)
    ensures ExtraTarget(inst, rf, space) == Ok(None) ==> Candidates(rf, space, decode) == Ok([Fallthrough(rf)])
    ensures ExtraTarget(inst, rf, space).Ok? && ExtraTarget(inst, rf, space).value.Some? ==>
      Candidates(rf, space, decode) == Ok([Fallthrough(rf), ExtraTarget(inst, rf, space).value.value])
  {
  }

  /** A failed instruction fetch or decode is the resolver's result. */
  lemma FetchAndDecodeErrors(rf: RegFile, space: AddressSpace, decode: Word -> Result<Inst>)
    ensures !space.alive ==> Candidates(rf, space, decode) == Err(Errno(ESRCH))
    ensures space.alive && Trunc32(rf.pc) !in space.words ==> Candidates(rf, space, decode) == Err(Errno(EIO))
    ensures space.alive && Trunc32(rf.pc) in space.words && decode(space.words[Trunc32(rf.pc)]).Err? ==>
      Candidates(rf, space, decode) == Err(decode(space.words[Trunc32(rf.pc)]).error)
  {
  }

  /** Opcodes outside the eight families, and LDR, MOV and ADD whose first
      operand is not PC, have only the fall-through candidate. */
  lemma OnlyFallthrough(rf: RegFile, space: AddressSpace, decode: Word -> Result<Inst>, inst: Inst)
    requires Decodes(rf, space, decode, inst)
    requires inst.op == OtherOp || (inst.op in {LDR, MOV, ADD} && inst.args[0] != RegArg(PC))
    ensures Candidates(rf, space, decode) == Ok([Fallthrough(rf)])
  {
  }

  /** B, BL, BLX and BX: the target is the immediate, the named register's
      value, or PC plus the offset; any other first argument adds nothing. */
  lemma BranchCandidates(rf: RegFile, space: AddressSpace, decode: Word -> Result<Inst>, inst: Inst)
    requires Decodes(rf, space, decode, inst)
    requires inst.op in {B, BL, BLX, BX}
    ensures inst.args[0].Imm? ==> Candidates(rf, space, decode) == Ok([Fallthrough(rf), inst.args[0].imm])
    ensures inst.args[0].RegArg? && inst.args[0].reg in rf.values ==>
      Candidates(rf, space, decode) == Ok([Fallthrough(rf), rf.values[inst.args[0].reg]])
    ensures inst.args[0].RegArg? && inst.args[0].reg !in rf.values ==>
      Candidates(rf, space, decode) == Err(UnknownRegister(inst.args[0].reg))
    ensures inst.args[0].PCRel? ==>
      Candidates(rf, space, decode) == Ok([Fallthrough(rf), Wrap64(rf.pc + inst.args[0].rel)])
    ensures !(inst.args[0].Imm? || inst.args[0].RegArg? || inst.args[0].PCRel?) ==>
      Candidates(rf, space, decode) == Ok([Fallthrough(rf)])
  {
  }

  /** POP with PC in its list: the target is the word stored at SP plus four
      bytes per listed register below PC. Without PC it adds nothing. */
  lemma PopCandidates(rf: RegFile, space: AddressSpace, decode: Word -> Result<Inst>, inst: Inst)
    requires Decodes(rf, space, decode, inst)
    requires inst.op == POP
    ensures !(inst.args[0].RegList? && Bit(inst.args[0].bits, PC)) ==>
      Candidates(rf, space, decode) == Ok([Fallthrough(rf)])
    ensures inst.args[0].RegList? && Bit(inst.args[0].bits, PC) && SP !in rf.values ==>
      Candidates(rf, space, decode) == Err(UnknownRegister(SP))
    ensures inst.args[0].RegList? && Bit(inst.args[0].bits, PC) && SP in rf.values ==>
      var slot := Wrap64(rf.values[SP] + 4 * |ListedBelow(inst.args[0].bits, PC)|);
      Candidates(rf, space, decode) ==
        if Trunc32(slot) in space.words then Ok([Fallthrough(rf), LE32(space.words[Trunc32(slot)])])
        else Err(Errno(EIO))
  {
    CandidatesOfDecoded(rf, space, decode, inst);
    assert ExtraTarget(inst, rf, space) == PopTarget(inst.args[0], rf, space);
    if inst.args[0].RegList? {
      CountBelowIsCardinality(inst.args[0].bits, PC);
    }
  }

  /** LDR into PC from a Mem argument: the target is the word at the load
      address. Any other second argument adds nothing. */
  lemma LdrCandidates(rf: RegFile, space: AddressSpace, decode: Word -> Result<Inst>, inst: Inst)
    requires Decodes(rf, space, decode, inst)
    requires inst.op == LDR && inst.args[0] == RegArg(PC)
    ensures !inst.args[1].Mem? ==> Candidates(rf, space, decode) == Ok([Fallthrough(rf)])
    ensures inst.args[1].Mem? && LoadAddress(inst.args[1], rf).Ok? ==>
      var addr := LoadAddress(inst.args[1], rf).value;
      Candidates(rf, space, decode) ==
        if Trunc32(addr) in space.words then Ok([Fallthrough(rf), LE32(space.words[Trunc32(addr)])])
        else Err(Errno(EIO))
    ensures inst.args[1].Mem? && LoadAddress(inst.args[1], rf).Err? ==>
      Candidates(rf, space, decode) == Err(LoadAddress(inst.args[1], rf).error)
  {
  }

  /** The load address per addressing mode; an unreadable base register, or
      an unreadable index register where the mode uses one, is the error. */
  lemma LoadAddressModes(m: Arg, rf: RegFile)
    requires m.Mem?
    ensures m.base !in rf.values ==> LoadAddress(m, rf) == Err(UnknownRegister(m.base))
    ensures m.base in rf.values && !(m.mode == AddrOffset || m.mode == AddrPreIndex) ==>
      LoadAddress(m, rf) == Ok(rf.values[m.base])
    ensures m.base in rf.values && (m.mode == AddrOffset || m.mode == AddrPreIndex) && m.sign == 0 ==>
      LoadAddress(m, rf) == Ok(Wrap64(rf.values[m.base] + m.offset))
    ensures m.base in rf.values && (m.mode == AddrOffset || m.mode == AddrPreIndex) && m.sign < 0 && m.index in rf.values ==>
      LoadAddress(m, rf) == Ok(Wrap64(rf.values[m.base] - ShiftIndex(rf.values[m.index], m.shift, m.count)))
    ensures m.base in rf.values && (m.mode == AddrOffset || m.mode == AddrPreIndex) && m.sign > 0 && m.index in rf.values ==>
      LoadAddress(m, rf) == Ok(Wrap64(rf.values[m.base] + ShiftIndex(rf.values[m.index], m.shift, m.count)))
    ensures m.base in rf.values && (m.mode == AddrOffset || m.mode == AddrPreIndex) && m.sign != 0 && m.index !in rf.values ==>
      LoadAddress(m, rf) == Err(UnknownRegister(m.index))
  {
  }

  /** When every register operand is readable, OperandSum is the sum modulo
      2^64 of the immediates and register values. */
  function OperandValue(a: Arg, rf: RegFile): int
  {
    match a
    case Imm(v) => v
    case RegArg(r) => if r in rf.values then rf.values[r] else 0
    case _ => 0
  }

  function TotalValue(ops: seq<Arg>, rf: RegFile): int
  {
    if ops == [] then 0 else TotalValue(ops[..|ops| - 1], rf) + OperandValue(ops[|ops| - 1], rf)
  }

  lemma {:induction false} OperandSumIsTotal(ops: seq<Arg>, rf: RegFile)
    requires forall i :: 0 <= i < |ops| && ops[i].RegArg? ==> ops[i].reg in rf.values
    ensures OperandSum(ops, rf) == Ok(Wrap64(TotalValue(ops, rf)))
  {
    if ops != [] {
      var init := ops[..|ops| - 1];
      assert forall i :: 0 <= i < |init| ==> init[i] == ops[i];
      OperandSumIsTotal(init, rf);
      var s := Wrap64(TotalValue(init, rf));
      var v := OperandValue(ops[|ops| - 1], rf);
      assert Wrap64(s + v) == Wrap64(TotalValue(init, rf) + v) by {
        ModAddLeft(TotalValue(init, rf), v);
      }
    }
  }

  /** (x mod 2^64 + y) mod 2^64 == (x + y) mod 2^64. */
  lemma ModAddLeft(x: int, y: int)
    ensures (x % TWO64 + y) % TWO64 == (x + y) % TWO64
  {
    var q := x / TWO64;
    assert x == q * TWO64 + x % TWO64;
    assert x + y == (x % TWO64 + y) + q * TWO64;
  }

  /** MOV and ADD into PC: the target is the sum of the later operands. */
  lemma MovAddCandidates(rf: RegFile, space: AddressSpace, decode: Word -> Result<Inst>, inst: Inst)
    requires Decodes(rf, space, decode, inst)
    requires inst.op in {MOV, ADD} && inst.args[0] == RegArg(PC)
    requires forall i :: 1 <= i < 4 && inst.args[i].RegArg? ==> inst.args[i].reg in rf.values
    ensures Candidates(rf, space, decode) == Ok([Fallthrough(rf), Wrap64(TotalValue(inst.args[1..], rf))])
  {
    OperandSumIsTotal(inst.args[1..], rf);
  }

  /** BL at 0x1000 whose PC-relative target is 0x2000. */
  lemma BranchWithLinkExample(space: AddressSpace, decode: Word -> Result<Inst>, values: map<int, u64>)
    requires space.alive && 0x1000 in space.words
    requires decode(space.words[0x1000]) == Ok(Inst(BL, [PCRel(0x1000), NoArg, NoArg, NoArg]))
    ensures Candidates(RegFile(0x1000, values), space, decode) == Ok([0x1004, 0x2000])
  {
  }

  /** POP {r0, r1, r2, pc} with SP = 0x7000 takes PC from the word at 0x700C. */
  lemma PopExample(space: AddressSpace, decode: Word -> Result<Inst>, pc: u64)
    requires space.alive && Trunc32(pc) in space.words && 0x700C in space.words
    requires decode(space.words[Trunc32(pc)]) == Ok(Inst(POP, [RegList(0x8007), NoArg, NoArg, NoArg]))
    ensures Candidates(RegFile(pc, map[SP as int := 0x7000]), space, decode)
      == Ok([Wrap64(pc + 4), LE32(space.words[0x700C])])
  {
    assert Pow2(0) == 1;
    assert Pow2(1) == 2;
    assert Pow2(2) == 4;
    assert Pow2(3) == 8;
    assert Pow2(4) == 16;
    assert Pow2(5) == 32;
    assert Pow2(6) == 64;
    assert Pow2(7) == 128;
    assert Pow2(8) == 256;
    assert Pow2(9) == 512;
    assert Pow2(10) == 1024;
    assert Pow2(11) == 2048;
    assert Pow2(12) == 4096;
    assert Pow2(13) == 8192;
    assert Pow2(14) == 16384;
    assert Pow2(15) == 32768;
    assert CountBelow(0x8007, 1) == 1;
    assert CountBelow(0x8007, 2) == 2;
    assert CountBelow(0x8007, 3) == 3;
    assert CountBelow(0x8007, 4) == 3;
    assert CountBelow(0x8007, 5) == 3;
    assert CountBelow(0x8007, 6) == 3;
    assert CountBelow(0x8007, 7) == 3;
    assert CountBelow(0x8007, 8) == 3;
    assert CountBelow(0x8007, 9) == 3;
    assert CountBelow(0x8007, 10) == 3;
    assert CountBelow(0x8007, 11) == 3;
    assert CountBelow(0x8007, 12) == 3;
    assert CountBelow(0x8007, 13) == 3;
    assert CountBelow(0x8007, 14) == 3;
    assert CountBelow(0x8007, 15) == 3;
    assert Bit(0x8007, PC);
  }

  /** Once a prefix of the operands fails, the whole sum fails with the same
      error: the first unreadable register decides. */
  lemma {:induction false} OperandSumPrefixError(ops: seq<Arg>, k: nat, rf: RegFile)
    requires k <= |ops| && OperandSum(ops[..k], rf).Err?
    ensures OperandSum(ops, rf) == OperandSum(ops[..k], rf)
    decreases |ops|
  {
    if k < |ops| {
      var init := ops[..|ops| - 1];
      assert init[..k] == ops[..k];
      OperandSumPrefixError(init, k, rf);
    } else {
      assert ops[..k] == ops;
    }
  }
}
