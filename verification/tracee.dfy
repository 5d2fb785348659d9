/** The debuggee as the ptrace interface shows it: a word-addressed address
    space reached by PTRACE_PEEKDATA / PTRACE_POKEDATA, and the register file
    a stop hands back. Addresses are uintptr values, 32 bits wide on ARM. */
module Tracee {
  import opened Words
  import opened Errors

  /** The debuggee's memory, one 4-byte word per address. `pokeDenied` holds
      the addresses where the kernel refuses a poke; `alive` turns false once
      the process has exited and been reaped. */
  datatype AddressSpace = AddressSpace(words: map<u32, Word>, pokeDenied: set<u32>, alive: bool)

  /** PTRACE_PEEKDATA of one word. */
  function Peek(s: AddressSpace, a: u32): (r: Result<Word>)
    ensures r.Ok? <==> s.alive && a in s.words
    ensures r.Ok? ==> r.value == s.words[a]
    ensures r.Err? ==> r.error != Nil
  {
    if !s.alive then Err(Errno(ESRCH))
    else if a !in s.words then Err(Errno(EIO))
    else Ok(s.words[a])
  }

  /** Whether a poke at `a` succeeds. */
  predicate Pokeable(s: AddressSpace, a: u32)
  {
    s.alive && a in s.words && a !in s.pokeDenied
  }

  /** PTRACE_POKEDATA of one word: the new address space, or the errno. */
  function Poke(s: AddressSpace, a: u32, w: Word): (r: Result<AddressSpace>)
    ensures r.Ok? <==> Pokeable(s, a)
    ensures r.Ok? ==> r.value == s.(words := s.words[a := w])
    ensures r.Ok? ==> r.value.words.Keys == s.words.Keys
    ensures r.Err? ==> r.error != Nil
  {
    if !s.alive then Err(Errno(ESRCH))
    else if a !in s.words || a in s.pokeDenied then Err(Errno(EIO))
    else Ok(s.(words := s.words[a := w]))
  }

  /** A register snapshot as the resolver reads it: `pc` is regs.PC() and
      `values` the registers that regs.Get knows; asking for any other
      number is an error. */
  datatype RegFile = RegFile(pc: u64, values: map<int, u64>)

  /** ARMRegisters.Get(n). */
  function Get(rf: RegFile, n: int): (r: Result<u64>)
    ensures r.Ok? <==> n in rf.values
    ensures r.Ok? ==> r.value == rf.values[n]
    ensures r.Err? ==> r.error == UnknownRegister(n)
  {
    if n in rf.values then Ok(rf.values[n]) else Err(UnknownRegister(n))
  }
}
