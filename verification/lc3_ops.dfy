/** The instruction handlers of the C LC-3 emulator, one per opcode, each a
    function from the machine (PC already advanced past the instruction) and
    the decoded instruction to the next machine. Where a handler departs from
    the LC-3 ISA (Patt & Patel, Introduction to Computing Systems, Appendix A,
    section A.3) the departure is modelled as written and named in a
    comment. */
module Lc3Ops {
  import opened Wrappers
  import opened Lc3Defs
  import opened Lc3Machine

  /** `r` differs from `m` at most in the general-purpose registers and COND. */
  predicate OnlyRegsAndCond(m: Machine, r: Machine) {
    r.mem == m.mem && r.pc == m.pc && r.running == m.running
    && r.input == m.input && r.output == m.output
  }

  /** `registers[reg] = value`, followed by `updateFlags(reg)` when
      `setFlags` holds. */
  function WriteReg(m: Machine, reg: RegIndex, value: bv16, setFlags: bool): (r: Machine)
    ensures r.regs[reg] == value
    ensures RegsAgreeExcept(m.regs, r.regs, reg)
    ensures setFlags ==> r.cond == FlagOf(value)
    ensures !setFlags ==> r.cond == m.cond
    ensures OnlyRegsAndCond(m, r)
  {
    var m1 := m.(regs := SetReg(m.regs, reg, value));
    if setFlags then UpdateFlags(m1, reg) else m1
  }

  /** The PC-relative address of LD, LDI, ST, STI and LEA. */
  function PcRelative(m: Machine, f: Fields): bv16 {
    m.pc + f.offset9
  }

  /** The base-relative address of LDR and STR. */
  function BaseRelative(m: Machine, f: Fields): bv16 {
    m.regs[f.sr1] + f.offset6
  }

  /** An address answered by its memory cell: neither a device register nor
      the missing cell 0xFFFF. */
  predicate PlainCell(a: bv16) {
    !IsDevice(a) && a < 0xFFFF
  }

  // ---------------------------------------------------------------------
  // Operate instructions
  // ---------------------------------------------------------------------

  /** ADD: DR := SR1 + operand modulo 2^16; COND from DR. */
  function Add(m: Machine, f: Fields): (r: Machine)
    ensures f.immFlag ==> r.regs[f.dr] == m.regs[f.sr1] + f.imm5
    ensures !f.immFlag ==> r.regs[f.dr] == m.regs[f.sr1] + m.regs[f.sr2]
    ensures RegsAgreeExcept(m.regs, r.regs, f.dr)
    ensures r.cond == FlagOf(r.regs[f.dr])
    ensures OnlyRegsAndCond(m, r)
  {
    var sum := if f.immFlag then m.regs[f.sr1] + f.imm5 else m.regs[f.sr1] + m.regs[f.sr2];
    WriteReg(m, f.dr, sum, true)
  }

  /** AND: DR := SR1 & operand. Unlike the ISA, COND is left as it was: the
      handler never calls `updateFlags`. */
  function And(m: Machine, f: Fields): (r: Machine)
    ensures f.immFlag ==> r.regs[f.dr] == m.regs[f.sr1] & f.imm5
    ensures !f.immFlag ==> r.regs[f.dr] == m.regs[f.sr1] & m.regs[f.sr2]
    ensures RegsAgreeExcept(m.regs, r.regs, f.dr)
    ensures r.cond == m.cond
    ensures OnlyRegsAndCond(m, r)
  {
    var conj := if f.immFlag then m.regs[f.sr1] & f.imm5 else m.regs[f.sr1] & m.regs[f.sr2];
    WriteReg(m, f.dr, conj, false)
  }

  /** NOT: DR := the 16-bit complement of SR; COND from DR. */
  function Not(m: Machine, f: Fields): (r: Machine)
    ensures r.regs[f.dr] ^ m.regs[f.sr1] == 0xFFFF
    ensures RegsAgreeExcept(m.regs, r.regs, f.dr)
    ensures r.cond == FlagOf(r.regs[f.dr])
    ensures OnlyRegsAndCond(m, r)
  {
    WriteReg(m, f.dr, !m.regs[f.sr1], true)
  }

  /** LEA: DR := PC + offset9, with no memory access; COND from DR. */
  function Lea(m: Machine, f: Fields): (r: Machine)
    ensures r.regs[f.dr] == PcRelative(m, f)
    ensures RegsAgreeExcept(m.regs, r.regs, f.dr)
    ensures r.cond == FlagOf(r.regs[f.dr])
    ensures OnlyRegsAndCond(m, r)
  {
    WriteReg(m, f.dr, PcRelative(m, f), true)
  }

  // ---------------------------------------------------------------------
  // Loads
  // ---------------------------------------------------------------------

  /** LD: DR := memory[PC + offset9]; COND from DR. */
  function Ld(m: Machine, f: Fields): (r: Result<Machine, Fault>)
    ensures r.Err? <==> PcRelative(m, f) == 0xFFFF
    ensures r.Ok? ==> RegsAgreeExcept(m.regs, r.value.regs, f.dr)
    ensures r.Ok? ==> r.value.cond == FlagOf(r.value.regs[f.dr])
    ensures r.Err? ==> r.error == NoCell(0xFFFF)
    ensures r.Ok? ==> r.value.mem == m.mem && r.value.pc == m.pc && r.value.output == m.output
    ensures r.Ok? ==> r.value.running == m.running
    // from a plain cell: exactly that cell's word, and no input consumed
    ensures PlainCell(PcRelative(m, f)) ==> r.Ok?
    ensures PlainCell(PcRelative(m, f)) ==> r.value.regs[f.dr] == m.mem[PcRelative(m, f) as int]
    ensures PlainCell(PcRelative(m, f)) ==> OnlyRegsAndCond(m, r.value)
  {
    var rd :- MemoryRead(m, PcRelative(m, f));
    Ok(WriteReg(rd.m, f.dr, rd.value, true))
  }

  /** LDI: DR := memory[memory[PC + offset9]]. Unlike the ISA, COND is left
      as it was: the handler never calls `updateFlags`. */
  function Ldi(m: Machine, f: Fields): (r: Result<Machine, Fault>)
    ensures r.Ok? ==> RegsAgreeExcept(m.regs, r.value.regs, f.dr)
    ensures r.Ok? ==> r.value.cond == m.cond
    ensures r.Err? ==> r.error == NoCell(0xFFFF)
    ensures r.Ok? ==> r.value.mem == m.mem && r.value.pc == m.pc && r.value.output == m.output
    ensures r.Ok? ==> r.value.running == m.running
    // the first read faults at the missing cell
    ensures PcRelative(m, f) == 0xFFFF ==> r == Err(NoCell(0xFFFF))
    // through plain cells: the word the indirect cell addresses
    ensures PlainCell(PcRelative(m, f)) && !IsDevice(m.mem[PcRelative(m, f) as int]) ==>
      (r.Err? <==> m.mem[PcRelative(m, f) as int] == 0xFFFF)
    ensures PlainCell(PcRelative(m, f)) && PlainCell(m.mem[PcRelative(m, f) as int]) ==>
      r.Ok? && r.value.regs[f.dr] == m.mem[m.mem[PcRelative(m, f) as int] as int]
    ensures PlainCell(PcRelative(m, f)) && PlainCell(m.mem[PcRelative(m, f) as int]) ==>
      OnlyRegsAndCond(m, r.value)
  {
    var indirect :- MemoryRead(m, PcRelative(m, f));
    var rd :- MemoryRead(indirect.m, indirect.value);
    Ok(WriteReg(rd.m, f.dr, rd.value, false))
  }

  /** LDR: DR := memory[BaseR + offset6]; COND from DR. */
  function Ldr(m: Machine, f: Fields): (r: Result<Machine, Fault>)
    ensures r.Err? <==> BaseRelative(m, f) == 0xFFFF
    ensures r.Ok? ==> RegsAgreeExcept(m.regs, r.value.regs, f.dr)
    ensures r.Ok? ==> r.value.cond == FlagOf(r.value.regs[f.dr])
    ensures r.Err? ==> r.error == NoCell(0xFFFF)
    ensures r.Ok? ==> r.value.mem == m.mem && r.value.pc == m.pc && r.value.output == m.output
    ensures r.Ok? ==> r.value.running == m.running
    ensures PlainCell(BaseRelative(m, f)) ==> r.Ok?
    ensures PlainCell(BaseRelative(m, f)) ==> r.value.regs[f.dr] == m.mem[BaseRelative(m, f) as int]
    ensures PlainCell(BaseRelative(m, f)) ==> OnlyRegsAndCond(m, r.value)
  {
    var rd :- MemoryRead(m, BaseRelative(m, f));
    Ok(WriteReg(rd.m, f.dr, rd.value, true))
  }

  // ---------------------------------------------------------------------
  // Stores. The register stored is named by bits 11..9, the DR position.
  // ---------------------------------------------------------------------

  /** ST: memory[PC + offset9] := SR. */
  function St(m: Machine, f: Fields): (r: Result<Machine, Fault>)
    ensures r.Err? <==> PcRelative(m, f) == 0xFFFF
    ensures r.Err? ==> r.error == NoCell(0xFFFF)
    ensures r.Ok? ==> StoredOneCell(m, r.value, PcRelative(m, f), m.regs[f.dr])
  {
    MemoryWrite(m, PcRelative(m, f), m.regs[f.dr])
  }

  /** STI: memory[memory[PC + offset9]] := SR. */
  function Sti(m: Machine, f: Fields): (r: Result<Machine, Fault>)
    ensures PcRelative(m, f) == 0xFFFF ==> r == Err(NoCell(0xFFFF))
    ensures PlainCell(PcRelative(m, f)) ==> (r.Err? <==> m.mem[PcRelative(m, f) as int] == 0xFFFF)
    ensures PlainCell(PcRelative(m, f)) && r.Ok? ==>
      StoredOneCell(m, r.value, m.mem[PcRelative(m, f) as int], m.regs[f.dr])
    ensures r.Err? ==> r.error == NoCell(0xFFFF)
    ensures r.Ok? ==> r.value.running == m.running && r.value.output == m.output
  {
    var indirect :- MemoryRead(m, PcRelative(m, f));
    MemoryWrite(indirect.m, indirect.value, m.regs[f.dr])
  }

  /** STR: memory[BaseR + offset6] := SR. */
  function Str(m: Machine, f: Fields): (r: Result<Machine, Fault>)
    ensures r.Err? <==> BaseRelative(m, f) == 0xFFFF
    ensures r.Err? ==> r.error == NoCell(0xFFFF)
    ensures r.Ok? ==> StoredOneCell(m, r.value, BaseRelative(m, f), m.regs[f.dr])
  {
    MemoryWrite(m, BaseRelative(m, f), m.regs[f.dr])
  }

  /** STR then LDR: a load from the cell a store just wrote reads the
      stored register back, whatever LDR's base register and offset, as long
      as they reach that cell. */
  lemma StrThenLdr(m: Machine, f: Fields, g: Fields)
    requires PlainCell(BaseRelative(m, f))
    requires BaseRelative(Str(m, f).value, g) == BaseRelative(m, f)
    ensures Str(m, f).Ok?
    ensures Ldr(Str(m, f).value, g).Ok?
    ensures Ldr(Str(m, f).value, g).value.regs[g.dr] == m.regs[f.dr]
  {
    LdrReadsStored(Str(m, f).value, g, BaseRelative(m, f), m.regs[f.dr]);
  }

  /** STI then LDI: through the same indirect cell, LDI reads back the
      register STI stored, as long as the store did not overwrite the
      indirect cell itself and both cells are plain. */
  lemma StiThenLdi(m: Machine, f: Fields, g: Fields)
    requires PlainCell(PcRelative(m, f)) && PlainCell(m.mem[PcRelative(m, f) as int])
    requires m.mem[PcRelative(m, f) as int] != PcRelative(m, f)
    requires PcRelative(Sti(m, f).value, g) == PcRelative(m, f)
    ensures Sti(m, f).Ok?
    ensures Ldi(Sti(m, f).value, g).Ok?
    ensures Ldi(Sti(m, f).value, g).value.regs[g.dr] == m.regs[f.dr]
  {
    var a, p := PcRelative(m, f), m.mem[PcRelative(m, f) as int];
    DistinctCells(a, p);
    StoredKeepsCell(m, Sti(m, f).value, p, m.regs[f.dr], a as int);
    LdiReadsStored(Sti(m, f).value, g, a, p, m.regs[f.dr]);
  }

  /** A store leaves every other cell as it was. */
  lemma StoredKeepsCell(m: Machine, stored: Machine, a: bv16, v: bv16, k: int)
    requires StoredOneCell(m, stored, a, v) && 0 <= k <= MemoryCells && k != a as int
    ensures stored.mem[k] == m.mem[k]
  {
  }

  /** Distinct addresses are distinct cell indices. */
  lemma DistinctCells(a: bv16, b: bv16)
    requires a != b
    ensures a as int != b as int
  {
    assert (a as int) as bv16 == a && (b as int) as bv16 == b;
  }

  /** LDR from a plain cell holding `v` loads `v`. */
  lemma LdrReadsStored(m: Machine, g: Fields, a: bv16, v: bv16)
    requires BaseRelative(m, g) == a && PlainCell(a) && m.mem[a as int] == v
    ensures Ldr(m, g).Ok? && Ldr(m, g).value.regs[g.dr] == v
  {
  }

  /** LDI through a plain cell at `a` that points to a plain cell holding
      `v` loads `v`. */
  lemma LdiReadsStored(m: Machine, g: Fields, a: bv16, p: bv16, v: bv16)
    requires PcRelative(m, g) == a && PlainCell(a) && m.mem[a as int] == p
    requires PlainCell(p) && m.mem[p as int] == v
    ensures Ldi(m, g).Ok? && Ldi(m, g).value.regs[g.dr] == v
  {
  }

  // ---------------------------------------------------------------------
  // Control
  // ---------------------------------------------------------------------

  /** BR: PC := PC + offset9 when any of the n, z, p bits is set. Unlike the
      ISA, COND is never consulted: the test is `negBit | zeroBit | posBit`,
      so BRn, BRz and BRp are all unconditional and only the all-clear word
      is a no-op. */
  function Br(m: Machine, f: Fields): (r: Machine)
    ensures !f.n && !f.z && !f.p ==> r == m
    ensures f.n || f.z || f.p ==> r == m.(pc := m.pc + f.offset9)
  {
    if f.n || f.z || f.p then m.(pc := m.pc + f.offset9) else m
  }

  /** JMP: PC := R[jmpBase], the register named by bits 15..13 of the word
      (`(instruction >> 6) >> 0x7`) where the ISA takes bits 8..6. */
  function Jmp(m: Machine, f: Fields): (r: Machine)
    ensures r.pc == m.regs[f.jmpBase]
    ensures r == m.(pc := r.pc)
  {
    m.(pc := m.regs[f.jmpBase])
  }

  /** JSR / JSRR: R7 := PC, then PC := PC + offset11 (bit 11 set) or
      PC := R[BaseR]. BaseR is read after R7 is written, so JSRR through R7
      jumps to the return address itself. */
  function Jsr(m: Machine, f: Fields): (r: Machine)
    ensures r.regs[RegR7] == m.pc
    ensures RegsAgreeExcept(m.regs, r.regs, RegR7)
    ensures f.longFlag ==> r.pc == m.pc + f.offset11
    ensures !f.longFlag && f.sr1 == RegR7 ==> r.pc == m.pc
    ensures !f.longFlag && f.sr1 != RegR7 ==> r.pc == m.regs[f.sr1]
    ensures r.cond == m.cond
    ensures r.mem == m.mem && r.running == m.running && r.input == m.input && r.output == m.output
  {
    if f.longFlag then m.(regs := SetReg(m.regs, RegR7, m.pc), pc := m.pc + f.offset11)
    else m.(regs := SetReg(m.regs, RegR7, m.pc), pc := SetReg(m.regs, RegR7, m.pc)[f.sr1])
  }
}
