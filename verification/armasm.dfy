/** The decoded ARM instruction as the armasm decoder hands it to the next-PC
    resolver: an opcode and four argument slots. The decoder itself is not
    part of this model; only the shape of its result is. */
module Armasm {
  import opened Words

  /** The opcodes the resolver distinguishes; every other one is `OtherOp`. */
  datatype Op = B | BL | BLX | BX | POP | LDR | MOV | ADD | OtherOp

  /** armasm.AddrMode. */
  datatype AddrMode = AddrPostIndex | AddrPreIndex | AddrOffset | AddrLdm | AddrLdmWb

  /** armasm.Shift. */
  datatype Shift = ShiftLeft | ShiftRight | ShiftRightSigned | RotateRight | RotateRightExt

  /** armasm.Reg is a uint8; R0..R15 are 0..15. */
  type Reg = u8

  const SP: Reg := 13
  const PC: Reg := 15

  /** One argument slot of armasm.Inst. `NoArg` is a nil slot; `OtherArg`
      stands for the argument kinds the resolver never inspects. */
  datatype Arg =
    | NoArg
    | Imm(imm: u32)
    | RegArg(reg: Reg)
    | PCRel(rel: i32)
    | RegList(bits: u16)
    | Mem(base: Reg, mode: AddrMode, sign: i8, index: Reg, shift: Shift, count: u8, offset: i16)
    | OtherArg

  /** armasm.Inst.Args is a fixed array of four slots. */
  type Args = s: seq<Arg> | |s| == 4 witness [NoArg, NoArg, NoArg, NoArg]

  datatype Inst = Inst(op: Op, args: Args)
}
