/** The constants of the C LC-3 emulator's header: device addresses, trap
    vectors, condition codes, register indices, opcodes and the sizes of the
    memory and register arrays. */
module Lc3Defs {

  // ---------------------------------------------------------------------
  // Memory-mapped device registers and the status bit they report.
  // ---------------------------------------------------------------------

  const KBSR: bv16 := 0xFE00  // keyboard status
  const KBDR: bv16 := 0xFE02  // keyboard data
  const DSR: bv16 := 0xFE04   // display status
  const DDR: bv16 := 0xFE06   // display data
  const MCR: bv16 := 0xFFFE   // machine control; declared but never consulted
  const StatusBit: bv16 := 1 << 15

  predicate IsDevice(address: bv16) {
    address == KBSR || address == KBDR || address == DSR || address == DDR
  }

  /** The four device addresses that `memoryRead` intercepts are distinct, lie
      in the 0xFE00 page, and the status bit is bit 15. */
  lemma DeviceAddresses()
    ensures KBSR != KBDR && KBSR != DSR && KBSR != DDR
    ensures KBDR != DSR && KBDR != DDR && DSR != DDR
    ensures forall a :: IsDevice(a) ==> a >> 8 == 0xFE
    ensures StatusBit == 0x8000 && StatusBit >> 15 == 1 && StatusBit & 0x7FFF == 0
  {
  }

  // ---------------------------------------------------------------------
  // Trap vectors, selected by the low 8 bits of a TRAP instruction.
  // ---------------------------------------------------------------------

  const TrapGetc: bv16 := 0x20
  const TrapOut: bv16 := 0x21
  const TrapPuts: bv16 := 0x22
  const TrapIn: bv16 := 0x23
  const TrapPutsp: bv16 := 0x24
  const TrapHalt: bv16 := 0x25

  const TrapVectors: seq<bv16> := [TrapGetc, TrapOut, TrapPuts, TrapIn, TrapPutsp, TrapHalt]

  /** The six vectors are 0x20..0x25, pairwise distinct, and each survives the
      `instruction & 0xFF` selection, so every routine is reachable. */
  lemma TrapVectorsReachable()
    ensures forall i :: 0 <= i < |TrapVectors| ==> TrapVectors[i] == 0x20 + i as bv16
    ensures forall i, j :: 0 <= i < j < |TrapVectors| ==> TrapVectors[i] != TrapVectors[j]
    ensures forall i :: 0 <= i < |TrapVectors| ==> TrapVectors[i] < 0x100 && TrapVectors[i] & 0xFF == TrapVectors[i]
    ensures forall i :: 0 <= i < |TrapVectors| ==> (0xF000 | TrapVectors[i]) & 0xFF == TrapVectors[i]
  {
  }

  // ---------------------------------------------------------------------
  // Condition codes. COND holds exactly one of three codes.
  // ---------------------------------------------------------------------

  datatype Cond = Pos | Zero | Neg

  /** The value stored in the COND register for each state: FL_POS = 0,
      FL_ZR = 1, FL_NEG = 2. A zero-filled register file therefore starts at
      Pos. */
  function CondCode(c: Cond): (r: bv16)
    ensures r < 3
  {
    match c
    case Pos => 0
    case Zero => 1
    case Neg => 2
  }

  lemma CondCodesDistinct()
    ensures forall c, d :: CondCode(c) == CondCode(d) ==> c == d
    ensures CondCode(Pos) == 0
  {
  }

  // ---------------------------------------------------------------------
  // Register indices: R0..R7 are 0..7, PC is 8, COND is 9.
  // ---------------------------------------------------------------------

  const RegPC: int := 8
  const RegCond: int := 9
  const RegCount: int := 10
  const RegR7: int := 7

  /** A 3-bit register field at any position of an instruction can name only
      R0..R7, never PC or COND. */
  lemma RegisterFieldNamesGpr(instr: bv16, shift: bv16)
    requires shift <= 13
    ensures ((instr >> shift) & 7) as int < RegPC
    ensures RegPC < RegCond < RegCount
  {
  }

  /** The eight general-purpose registers; PC and COND are kept as separate
      components of the machine state, since no instruction field reaches
      them. */
  type Regs = s: seq<bv16> | |s| == 8 witness [0, 0, 0, 0, 0, 0, 0, 0]

  // ---------------------------------------------------------------------
  // Memory: `static uint16_t memory[UINT16_MAX]` has 65535 cells, so the
  // address 0xFFFF names no cell.
  // ---------------------------------------------------------------------

  const UInt16Max: int := 65535
  const MemoryCells: int := UInt16Max

  /** The memory array, indexed by address. The sequence has one slot per
      16-bit address so that indexing needs no bound beyond the word width;
      the last slot stands for the missing cell at 0xFFFF and is never read
      or written: every access to 0xFFFF stops with a fault first. */
  type Memory = s: seq<bv16> | |s| == MemoryCells + 1 witness seq(MemoryCells + 1, _ => 0)

  /** Every address below 0xFFFF has a cell; 0xFFFF is one past the end. */
  lemma OnlyLastAddressHasNoCell(address: bv16)
    ensures address < 0xFFFF <==> address != 0xFFFF
    ensures address == 0xFFFF ==> address as int == MemoryCells
  {
  }

  // ---------------------------------------------------------------------
  // Opcodes, numbered BR = 0 .. TRAP = 15 in declaration order.
  // ---------------------------------------------------------------------

  datatype Opcode =
    | BR | ADD | LD | ST | JSR | AND | LDR | STR
    | RTI | NOT | LDI | STI | JMP | RES | LEA | TRAP

  /** The opcodes in enum order: position k holds the opcode numbered k. */
  const Opcodes: seq<Opcode> :=
    [BR, ADD, LD, ST, JSR, AND, LDR, STR, RTI, NOT, LDI, STI, JMP, RES, LEA, TRAP]

  function OpcodeNumber(op: Opcode): bv16 {
    match op
    case BR => 0
    case ADD => 1
    case LD => 2
    case ST => 3
    case JSR => 4
    case AND => 5
    case LDR => 6
    case STR => 7
    case RTI => 8
    case NOT => 9
    case LDI => 10
    case STI => 11
    case JMP => 12
    case RES => 13
    case LEA => 14
    case TRAP => 15
  }

  /** The opcode an instruction's top four bits select. */
  function OpcodeOf(instr: bv16): (op: Opcode)
    ensures OpcodeNumber(op) == instr >> 12
  {
    var code := instr >> 12;
    assert code < 16;
    Opcodes[code as int]
  }

  /** The numbering is a bijection between the sixteen opcodes and 0..15:
      distinct opcodes have distinct numbers, every number below 16 is used,
      and the top four bits of every word name exactly one opcode. */
  lemma OpcodeNumbering()
    ensures forall op :: OpcodeNumber(op) < 16
    ensures forall op1, op2 :: OpcodeNumber(op1) == OpcodeNumber(op2) ==> op1 == op2
    ensures forall op :: OpcodeOf(OpcodeNumber(op) << 12) == op
    ensures forall i :: 0 <= i < 16 ==> OpcodeNumber(Opcodes[i]) as int == i
  {
  }
}
