/** The machine state of the C LC-3 emulator and its primitive operations:
    sign extension, instruction fields, the condition-flag update, and reads
    and writes of the memory array (with the keyboard and display registers
    intercepted on reads). */
module Lc3Machine {
  import opened Wrappers
  import opened Lc3Defs

  /** The whole emulator state. The C program keeps it in the static arrays
      `memory` and `registers` and the flag `running`; the console streams
      that the traps read and write are explicit here: `input` is the bytes
      `getchar` has yet to return, `output` the bytes written so far. */
  datatype Machine = Machine(
    mem: Memory,
    regs: Regs,
    pc: bv16,
    cond: Cond,
    running: bool,
    input: seq<bv8>,
    output: seq<bv8>)

  /** An access to `memory[0xFFFF]`, one past the end of the 65535-cell
      array: undefined behaviour in C, a stop in this model. */
  datatype Fault = NoCell(address: bv16)

  /** A value read from memory together with the machine after the read (a
      read of the keyboard data register consumes a byte of input). */
  datatype Read = Read(value: bv16, m: Machine)

  // ---------------------------------------------------------------------
  // Sign extension
  // ---------------------------------------------------------------------

  /** `signExtend(x, bit_count)`: when bit `bitCount - 1` of `x` is set, all
      bits from `bitCount` upward are set. The C expression
      `x |= 0xFFFF << bit_count` is computed in `int` and truncated to 16
      bits on assignment, which is the 16-bit shift written here. The shift
      is undefined in C for a count of 0 or above 15; the callers pass 5, 6,
      9 and 11. */
  function SignExtend(x: bv16, bitCount: bv16): (r: bv16)
    requires 1 <= bitCount <= 15
    // a field whose top bit is clear is returned as it is
    ensures x < 1 << (bitCount - 1) ==> r == x
    // a field whose top bit is set denotes x - 2^bitCount, taken modulo 2^16
    ensures 1 << (bitCount - 1) <= x < 1 << bitCount ==> r == x - (1 << bitCount)
    // the sign of the widened word is the sign of the field
    ensures x < 1 << bitCount ==> (r >> 15 == 1 <==> x >> (bitCount - 1) == 1)
  {
    if (x >> (bitCount - 1)) & 0x1 == 1 then x | (0xFFFF << bitCount) else x
  }

  /** Extending a second time at the same width changes nothing. */
  lemma SignExtendIdempotent(x: bv16, bitCount: bv16)
    requires 1 <= bitCount <= 15
    ensures SignExtend(SignExtend(x, bitCount), bitCount) == SignExtend(x, bitCount)
  {
  }

  // ---------------------------------------------------------------------
  // Instruction fields
  // ---------------------------------------------------------------------

  /** An index into the general-purpose registers R0..R7. */
  type RegIndex = i: nat | i < 8

  /** The fields the handlers extract from an instruction word. Every handler
      of the emulator takes the raw word and shifts and masks it itself; the
      model decodes the word once, and each handler reads the fields its C
      counterpart computes. */
  datatype Fields = Fields(
    dr: RegIndex,       // bits 11..9: DR, or SR of the stores
    sr1: RegIndex,      // bits 8..6: SR1, or BaseR
    sr2: RegIndex,      // bits 2..0: SR2
    immFlag: bool,      // bit 5: ADD and AND take imm5 instead of SR2
    imm5: bv16,         // bits 4..0, sign-extended
    offset6: bv16,      // bits 5..0, sign-extended
    offset9: bv16,      // bits 8..0, sign-extended
    offset11: bv16,     // bits 10..0, sign-extended
    longFlag: bool,     // bit 11: JSR (PC-relative) rather than JSRR
    n: bool,            // bit 11 of BR
    z: bool,            // bit 10 of BR
    p: bool,            // bit 9 of BR
    jmpBase: RegIndex,  // bits 15..13: the register JMP reads, `(instr >> 6) >> 7`
    trapVector: bv16)   // bits 7..0

  /** The bits of `instr` under `mask`, widened as a two's-complement field
      whose sign bit is `signBit`. */
  function SignedField(instr: bv16, mask: bv16, signBit: bv16): bv16 {
    var f := instr & mask;
    if f & signBit != 0 then f | !mask else f
  }

  /** The register index a 3-bit field names. */
  function RegOf(b: bv16): (i: RegIndex)
    requires b < 8
    ensures i == b as int
  {
    if b == 0 then 0 else if b == 1 then 1 else if b == 2 then 2 else if b == 3 then 3
    else if b == 4 then 4 else if b == 5 then 5 else if b == 6 then 6 else 7
  }

  /** The fields of an instruction word. The sign-extended fields are what
      the handlers compute with `signExtend(instr & mask, width)`. */
  function Decode(instr: bv16): (f: Fields)
    // the register fields
    ensures f.dr == ((instr >> 9) & 0x7) as int
    ensures f.sr1 == ((instr >> 6) & 0x7) as int
    ensures f.sr2 == (instr & 0x7) as int
    ensures f.jmpBase == (instr >> 13) as int
    // the mode bits
    ensures f.immFlag <==> (instr >> 5) & 0x1 == 1
    ensures f.longFlag <==> (instr >> 11) & 0x1 == 1
    ensures f.n <==> (instr >> 11) & 0x1 == 1
    ensures f.z <==> (instr >> 10) & 0x1 == 1
    ensures f.p <==> (instr >> 9) & 0x1 == 1
    ensures f.n == f.longFlag
    ensures f.n || f.z || f.p <==> (instr >> 9) & 0x7 != 0
    ensures f.trapVector == instr & 0xFF
    // the offsets agree with the emulator's own sign extension
    ensures f.imm5 == SignExtend(instr & 0x1F, 5)
    ensures f.offset6 == SignExtend(instr & 0x3F, 6)
    ensures f.offset9 == SignExtend(instr & 0x1FF, 9)
    ensures f.offset11 == SignExtend(instr & 0x7FF, 11)
  {
    Fields(
      RegOf((instr >> 9) & 0x7),
      RegOf((instr >> 6) & 0x7),
      RegOf(instr & 0x7),
      (instr >> 5) & 0x1 == 1,
      SignedField(instr, 0x1F, 0x10),
      SignedField(instr, 0x3F, 0x20),
      SignedField(instr, 0x1FF, 0x100),
      SignedField(instr, 0x7FF, 0x400),
      (instr >> 11) & 0x1 == 1,
      (instr >> 0xB) & 0x1 == 1,
      (instr >> 0xA) & 0x1 == 1,
      (instr >> 0x9) & 0x1 == 1,
      RegOf((instr >> 6) >> 0x7),
      instr & 0xFF)
  }

  // ---------------------------------------------------------------------
  // Condition flags
  // ---------------------------------------------------------------------

  /** The COND state `updateFlags` derives from a register value. */
  function FlagOf(v: bv16): (c: Cond)
    // zero, negative and positive as a 16-bit two's-complement number
    ensures c == Zero <==> v == 0
    ensures c == Neg <==> v >= 0x8000
    ensures c == Pos <==> 0 < v < 0x8000
  {
    if v == 0 then Zero
    else if (v >> 15) & 0x1 == 1 then Neg
    else Pos
  }

  /** `updateFlags(reg)`: COND is set from the value now in register `reg`. */
  function UpdateFlags(m: Machine, reg: RegIndex): (r: Machine)
    ensures r.cond == FlagOf(m.regs[reg])
    ensures r == m.(cond := r.cond)
  {
    m.(cond := FlagOf(m.regs[reg]))
  }

  // ---------------------------------------------------------------------
  // Console input
  // ---------------------------------------------------------------------

  /** `(uint16_t) getchar()`: the next input byte, or EOF (-1) converted to
      16 bits, 0xFFFF, once the input is exhausted. */
  function GetcharWord(input: seq<bv8>): (w: bv16)
    ensures |input| == 0 <==> w == 0xFFFF
    ensures |input| > 0 ==> w < 0x100
  {
    if |input| == 0 then 0xFFFF else input[0] as bv16
  }

  /** `(char) getchar()` written back with `fputc`: the next input byte, or
      the byte 0xFF that EOF becomes once the input is exhausted. */
  function GetcharByte(input: seq<bv8>): bv8 {
    if |input| == 0 then 0xFF else input[0]
  }

  /** The input left after one `getchar`. */
  function Consume(input: seq<bv8>): (rest: seq<bv8>)
    ensures |input| > 0 ==> input == [input[0]] + rest
    ensures |input| == 0 ==> rest == []
  {
    if |input| == 0 then [] else input[1..]
  }

  /** Whether `select` reports the keyboard readable. The emulator asks the
      operating system; this model answers from the input stream: a key is
      waiting exactly when input remains. */
  predicate KeyReady(m: Machine) {
    |m.input| > 0
  }

  // ---------------------------------------------------------------------
  // Memory access
  // ---------------------------------------------------------------------

  /** `memoryRead(address)`: the four device registers are answered by the
      devices, every other address by its memory cell. */
  function MemoryRead(m: Machine, address: bv16): (r: Result<Read, Fault>)
    ensures r.Err? <==> address == 0xFFFF
    ensures r.Err? ==> r.error == NoCell(0xFFFF)
    // a plain cell is read without side effects
    ensures !IsDevice(address) && address < 0xFFFF ==> r == Ok(Read(m.mem[address as int], m))
    // only the keyboard data register consumes input, one byte when a key is waiting
    ensures r.Ok? ==> r.value.m == m || (address == KBDR && KeyReady(m) && r.value.m == m.(input := m.input[1..]))
    ensures address == KBSR ==> r == Ok(Read(if KeyReady(m) then StatusBit else 0, m))
    ensures address == DSR ==> r == Ok(Read(StatusBit, m))
  {
    if address == KBSR then
      Ok(Read(if KeyReady(m) then StatusBit else 0, m))
    else if address == KBDR then
      if KeyReady(m) then Ok(Read(GetcharWord(m.input), m.(input := Consume(m.input))))
      else Ok(Read(0, m))
    else if address == DSR then
      Ok(Read(StatusBit, m))
    else if address == DDR then
      Ok(Read(0, m))
    else if address < 0xFFFF then
      Ok(Read(m.mem[address as int], m))
    else
      Err(NoCell(address))
  }

  /** `memoryWrite(address, value)`: a plain store into the array, devices
      included. */
  function MemoryWrite(m: Machine, address: bv16, value: bv16): (r: Result<Machine, Fault>)
    ensures address == 0xFFFF ==> r == Err(NoCell(0xFFFF))
    ensures address < 0xFFFF ==> r.Ok? && r.value.mem[address as int] == value
    ensures address < 0xFFFF ==> forall k :: 0 <= k <= MemoryCells && k != address as int ==> r.value.mem[k] == m.mem[k]
    ensures r.Ok? ==> SameButMemory(m, r.value)
    ensures r.Ok? ==> StoredOneCell(m, r.value, address, value)
  {
    if address < 0xFFFF then Ok(m.(mem := m.mem[address as int := value]))
    else Err(NoCell(address))
  }

  /** `r` differs from `m` in at most one memory cell, the one at `address`,
      which now holds `value`. */
  predicate StoredOneCell(m: Machine, r: Machine, address: bv16, value: bv16) {
    && r.regs == m.regs && r.pc == m.pc && r.cond == m.cond && r.running == m.running
    && r.input == m.input && r.output == m.output
    && r.mem[address as int] == value
    && forall k :: 0 <= k <= MemoryCells && k != address as int ==> r.mem[k] == m.mem[k]
  }

  /** `m'` differs from `m` at most in memory. */
  predicate SameButMemory(m: Machine, m': Machine) {
    m'.regs == m.regs && m'.pc == m.pc && m'.cond == m.cond && m'.running == m.running
    && m'.input == m.input && m'.output == m.output
  }

  /** `registers[reg] = value` on the general-purpose registers. */
  function SetReg(regs: Regs, reg: RegIndex, value: bv16): (r: Regs)
    ensures r[reg] == value
    ensures RegsAgreeExcept(regs, r, reg)
  {
    regs[reg := value]
  }

  /** Register file `regs` equals `regs'` except possibly at index `i`. */
  predicate RegsAgreeExcept(regs: Regs, regs': Regs, i: int) {
    forall k :: 0 <= k < 8 && k != i ==> regs'[k] == regs[k]
  }
}
