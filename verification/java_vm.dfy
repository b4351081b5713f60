/** The handlers of the Java twin of the emulator (`Main`). Java `int` is a
    32-bit two's-complement word, modelled as `bv32` (addition wraps exactly
    as `bv32` addition does); `>>` is the arithmetic shift `JavaShr`. The
    handlers never mask results to 16 bits, so registers and memory may hold
    values of any width. An array index outside the array throws; the model
    returns the offending index instead.

    No handler is reachable from `main`: every arm of its opcode switch is
    empty. They are modelled as standalone functions of the instruction
    word. `GPRegister` and `ConditionFlags` are taken to number registers
    and flags as the C header does. */
module JavaVm {
  import opened Wrappers

  // ---------------------------------------------------------------------
  // State
  // ---------------------------------------------------------------------

  /** `int[] memory = new int[UINT16_MAX]` with the Java field `UINT16_MAX`
      set to 65536, one cell per 16-bit address. */
  const JavaMemorySize: int := 65536
  /** `GPRegister.R_COUNT`. */
  const JavaRegisterCount: int := 10

  const JR0: int := 0
  const JR7: int := 7
  const JPc: int := 8
  const JCond: int := 9

  /** `ConditionFlags`: FL_POS, FL_ZR and FL_NEG. */
  const JFlPos: bv32 := 0
  const JFlZr: bv32 := 1
  const JFlNeg: bv32 := 2

  type JMemory = s: seq<bv32> | |s| == JavaMemorySize witness seq(JavaMemorySize, _ => 0)
  type JRegisters = s: seq<bv32> | |s| == JavaRegisterCount witness seq(JavaRegisterCount, _ => 0)

  /** The static fields `memory`, `registers` and `running`, and the bytes
      `System.in` has yet to deliver. */
  datatype JavaState = JavaState(memory: JMemory, registers: JRegisters, running: bool, input: seq<bv8>)

  /** An `ArrayIndexOutOfBoundsException` for the given index (its 32-bit
      pattern; a negative index has the top bit set). */
  datatype Thrown = IndexOutOfBounds(index: bv32)

  // ---------------------------------------------------------------------
  // Java arithmetic
  // ---------------------------------------------------------------------

  /** Java's `x >> k` on `int`: copies of the sign bit shift in from the
      left. */
  function JavaShr(x: bv32, k: bv32): (r: bv32)
    requires k < 32
    // a non-negative int shifts like an unsigned word
    ensures x < 0x8000_0000 ==> r == x >> k
    // a negative int stays negative, and shifting -1 yields -1
    ensures x >= 0x8000_0000 ==> r >= 0x8000_0000
    ensures x == 0xFFFF_FFFF ==> r == 0xFFFF_FFFF
  {
    if x >> 31 == 1 then !((!x) >> k) else x >> k
  }

  /** An index into `registers` below 8, as a 3-bit field names. */
  type JRegIndex = i: nat | i < 8

  function JRegOf(b: bv32): (i: JRegIndex)
    requires b < 8
  {
    if b == 0 then 0 else if b == 1 then 1 else if b == 2 then 2 else if b == 3 then 3
    else if b == 4 then 4 else if b == 5 then 5 else if b == 6 then 6 else 7
  }

  /** `(instruction >> shift) & 0x7` as a register index. */
  function Field3(instruction: bv32, shift: bv32): (i: JRegIndex)
    requires shift < 29
  {
    JRegOf(JavaShr(instruction, shift) & 0x7)
  }

  /** `(instruction >> bit) & 0x1`, as a truth value. */
  function Bit(instruction: bv32, bit: bv32): (b: bool)
    requires bit < 31
    ensures b <==> (instruction >> bit) & 1 == 1
  {
    JavaShr(instruction, bit) & 0x1 == 1
  }

  /** `signExtend(x, bit_count)`: when bit `bitCount - 1` is set, sixteen
      one bits are ORed in from `bitCount` upward. Only the low 16 bits end
      up sign-extended: the result is still a non-negative `int` below
      2^(bitCount + 16), not the negative number the field denotes. */
  function JSignExtend(x: bv32, bitCount: bv32): (r: bv32)
    requires 1 <= bitCount <= 15
    ensures x < 1 << (bitCount - 1) ==> r == x
    ensures 1 << (bitCount - 1) <= x < 1 << bitCount ==> r == x + (0xFFFF << bitCount)
    ensures x < 1 << bitCount ==> r < 1 << (bitCount + 16)
  {
    if (JavaShr(x, bitCount - 1) & 1) == 1 then x | (0xFFFF << bitCount) else x
  }

  /** The code `updateFlags` stores for a register value: FL_ZR for zero,
      FL_NEG when `v >> 15 == 1`, which holds exactly for 0x8000..0xFFFF,
      and FL_POS for everything else, negative ints and values of 17 bits
      or more included. */
  function JFlagCode(v: bv32): (c: bv32)
    ensures c == JFlZr <==> v == 0
    ensures c == JFlNeg <==> 0x8000 <= v < 0x1_0000
    ensures c == JFlPos <==> v != 0 && !(0x8000 <= v < 0x1_0000)
  {
    if v == 0 then JFlZr
    else if JavaShr(v, 15) == 1 then JFlNeg
    else JFlPos
  }

  /** `updateFlags(reg)`. */
  function UpdateFlags(regs: JRegisters, reg: JRegIndex): (r: JRegisters)
    ensures r[JCond] == JFlagCode(regs[reg])
    ensures forall k :: 0 <= k < JavaRegisterCount && k != JCond ==> r[k] == regs[k]
  {
    regs[JCond := JFlagCode(regs[reg])]
  }

  /** Registers `r` equal `regs` except possibly at `i` and at `j`. */
  predicate OthersUnchanged(regs: JRegisters, r: JRegisters, i: int, j: int) {
    forall k :: 0 <= k < JavaRegisterCount && k != i && k != j ==> r[k] == regs[k]
  }

  /** `registers[reg] = value; updateFlags(reg)`. */
  function WriteFlagged(s: JavaState, reg: JRegIndex, value: bv32): (r: JavaState)
    ensures r.registers[reg] == value
    ensures r.registers[JCond] == JFlagCode(value)
    ensures OthersUnchanged(s.registers, r.registers, reg, JCond)
    ensures r.memory == s.memory && r.running == s.running && r.input == s.input
  {
    s.(registers := UpdateFlags(s.registers[reg := value], reg))
  }

  // ---------------------------------------------------------------------
  // Memory
  // ---------------------------------------------------------------------

  /** `memoryRead(where)`: `memory[where]`, with no device registers. */
  function JavaRead(s: JavaState, where: bv32): (r: Result<bv32, Thrown>)
    ensures r.Err? <==> where >= 0x1_0000
    ensures r.Err? ==> r.error == IndexOutOfBounds(where)
    ensures r.Ok? ==> r.value == ReadCell(s, where)
  {
    if where < 0x1_0000 then Ok(ReadCell(s, where)) else Err(IndexOutOfBounds(where))
  }

  /** The array index an in-range `int` index denotes. */
  function Index(where: bv32): (i: nat)
    requires where < 0x1_0000
    ensures i < JavaMemorySize
  {
    (where as bv16) as int
  }

  /** `memory[where]` for an index inside the array. */
  function ReadCell(s: JavaState, where: bv32): bv32
    requires where < 0x1_0000
  {
    s.memory[Index(where)]
  }

  /** `r` is `s` with array cell `address` now holding `value`. */
  predicate StoredAt(s: JavaState, r: JavaState, address: bv32, value: bv32)
    requires address < 0x1_0000
  {
    && ReadCell(r, address) == value
    && (forall k :: 0 <= k < JavaMemorySize && k != Index(address) ==> r.memory[k] == s.memory[k])
    && r.registers == s.registers && r.running == s.running && r.input == s.input
  }

  /** `memoryWrite(address, value)`: `memory[address] = value`. */
  function JavaWrite(s: JavaState, address: bv32, value: bv32): (r: Result<JavaState, Thrown>)
    ensures r.Err? <==> address >= 0x1_0000
    ensures r.Err? ==> r.error == IndexOutOfBounds(address)
    ensures r.Ok? ==> r.value == WriteCell(s, Index(address), value)
  {
    if address < 0x1_0000 then Ok(WriteCell(s, Index(address), value))
    else Err(IndexOutOfBounds(address))
  }

  /** `memory[i] = value` for an index inside the array. */
  function WriteCell(s: JavaState, i: nat, value: bv32): (r: JavaState)
    requires i < JavaMemorySize
    ensures r.memory[i] == value
    ensures forall k :: 0 <= k < JavaMemorySize && k != i ==> r.memory[k] == s.memory[k]
    ensures r.registers == s.registers && r.running == s.running && r.input == s.input
  {
    s.(memory := s.memory[i := value])
  }

  // ---------------------------------------------------------------------
  // Offsets, as the handlers compute them
  // ---------------------------------------------------------------------

  function Imm5(instruction: bv32): bv32 {
    JSignExtend(instruction & 0x1F, 5)
  }

  function Offset6(instruction: bv32): bv32 {
    JSignExtend(instruction & 0x3F, 6)
  }

  function Offset9(instruction: bv32): bv32 {
    JSignExtend(instruction & 0x1FF, 9)
  }

  function Offset11(instruction: bv32): bv32 {
    JSignExtend(instruction & 0x7FF, 11)
  }

  // ---------------------------------------------------------------------
  // Operate instructions
  // ---------------------------------------------------------------------

  /** `addOp`: R[dr] := R[sr1] + (imm5 or R[sr2]) in 32-bit arithmetic, then
      `updateFlags(dr)`. */
  function AddOp(s: JavaState, instruction: bv32): (r: JavaState)
    ensures Bit(instruction, 5) ==>
      r.registers[Field3(instruction, 9)] == s.registers[Field3(instruction, 6)] + Imm5(instruction)
    ensures !Bit(instruction, 5) ==>
      r.registers[Field3(instruction, 9)] == s.registers[Field3(instruction, 6)] + s.registers[Field3(instruction, 0)]
    ensures r.registers[JCond] == JFlagCode(r.registers[Field3(instruction, 9)])
    ensures OthersUnchanged(s.registers, r.registers, Field3(instruction, 9), JCond)
    ensures r.memory == s.memory && r.running == s.running && r.input == s.input
  {
    if Bit(instruction, 5) then
      WriteFlagged(s, Field3(instruction, 9), s.registers[Field3(instruction, 6)] + Imm5(instruction))
    else
      WriteFlagged(s, Field3(instruction, 9), s.registers[Field3(instruction, 6)] + s.registers[Field3(instruction, 0)])
  }

  /** `bitwiseAnd`: R[dr] := R[sr1] & (imm5 or R[sr2]), then
      `updateFlags(dr)`, which the C handler omits. */
  function BitwiseAnd(s: JavaState, instruction: bv32): (r: JavaState)
    ensures Bit(instruction, 5) ==>
      r.registers[Field3(instruction, 9)] == s.registers[Field3(instruction, 6)] & Imm5(instruction)
    ensures !Bit(instruction, 5) ==>
      r.registers[Field3(instruction, 9)] == s.registers[Field3(instruction, 6)] & s.registers[Field3(instruction, 0)]
    ensures r.registers[JCond] == JFlagCode(r.registers[Field3(instruction, 9)])
    ensures OthersUnchanged(s.registers, r.registers, Field3(instruction, 9), JCond)
    ensures r.memory == s.memory && r.running == s.running && r.input == s.input
  {
    if Bit(instruction, 5) then
      WriteFlagged(s, Field3(instruction, 9), s.registers[Field3(instruction, 6)] & Imm5(instruction))
    else
      WriteFlagged(s, Field3(instruction, 9), s.registers[Field3(instruction, 6)] & s.registers[Field3(instruction, 0)])
  }

  /** `bitwiseNot`: R[dr] := ~R[sr], all 32 bits, then `updateFlags(dr)`. */
  function BitwiseNot(s: JavaState, instruction: bv32): (r: JavaState)
    ensures r.registers[Field3(instruction, 9)] ^ s.registers[Field3(instruction, 6)] == 0xFFFF_FFFF
    ensures r.registers[JCond] == JFlagCode(r.registers[Field3(instruction, 9)])
    ensures OthersUnchanged(s.registers, r.registers, Field3(instruction, 9), JCond)
    ensures r.memory == s.memory && r.running == s.running && r.input == s.input
  {
    WriteFlagged(s, Field3(instruction, 9), !s.registers[Field3(instruction, 6)])
  }

  /** `loadEffectiveAddress`: R[dr] := PC + offset9, then `updateFlags(dr)`. */
  function LoadEffectiveAddress(s: JavaState, instruction: bv32): (r: JavaState)
    ensures r.registers[Field3(instruction, 9)] == s.registers[JPc] + Offset9(instruction)
    ensures r.registers[JCond] == JFlagCode(r.registers[Field3(instruction, 9)])
    ensures OthersUnchanged(s.registers, r.registers, Field3(instruction, 9), JCond)
    ensures r.memory == s.memory && r.running == s.running && r.input == s.input
  {
    WriteFlagged(s, Field3(instruction, 9), s.registers[JPc] + Offset9(instruction))
  }

  // ---------------------------------------------------------------------
  // Loads and stores
  // ---------------------------------------------------------------------

  /** `load`: R[dr] := memory[PC + offset9], then `updateFlags(dr)`. A
      negative offset becomes a large positive `int`, so the index leaves
      the array. */
  function Load(s: JavaState, instruction: bv32): (r: Result<JavaState, Thrown>)
    ensures r.Err? <==> s.registers[JPc] + Offset9(instruction) >= 0x1_0000
    ensures r.Ok? ==> r.value.registers[Field3(instruction, 9)] == ReadCell(s, s.registers[JPc] + Offset9(instruction))
    ensures r.Ok? ==> r.value.registers[JCond] == JFlagCode(r.value.registers[Field3(instruction, 9)])
    ensures r.Ok? ==> OthersUnchanged(s.registers, r.value.registers, Field3(instruction, 9), JCond)
    ensures r.Ok? ==> r.value.memory == s.memory
  {
    var v :- JavaRead(s, s.registers[JPc] + Offset9(instruction));
    Ok(WriteFlagged(s, Field3(instruction, 9), v))
  }

  /** `loadIndirect`: R[dr] := memory[memory[PC + offset9]], then
      `updateFlags(dr)`. */
  function LoadIndirect(s: JavaState, instruction: bv32): (r: Result<JavaState, Thrown>)
    ensures s.registers[JPc] + Offset9(instruction) >= 0x1_0000 ==> r.Err?
    ensures s.registers[JPc] + Offset9(instruction) < 0x1_0000 ==>
      (r.Err? <==> ReadCell(s, s.registers[JPc] + Offset9(instruction)) >= 0x1_0000)
    ensures r.Ok? ==>
      r.value.registers[Field3(instruction, 9)] == ReadCell(s, ReadCell(s, s.registers[JPc] + Offset9(instruction)))
    ensures r.Ok? ==> r.value.registers[JCond] == JFlagCode(r.value.registers[Field3(instruction, 9)])
    ensures r.Ok? ==> OthersUnchanged(s.registers, r.value.registers, Field3(instruction, 9), JCond)
    ensures r.Ok? ==> r.value.memory == s.memory
  {
    var indirect :- JavaRead(s, s.registers[JPc] + Offset9(instruction));
    var v :- JavaRead(s, indirect);
    Ok(WriteFlagged(s, Field3(instruction, 9), v))
  }

  /** `loadRegister`: R[dr] := memory[baseR + offset6], where `baseR` is the
      register's number, not its contents; then `updateFlags(dr)`. */
  function LoadRegister(s: JavaState, instruction: bv32): (r: Result<JavaState, Thrown>)
    ensures r.Err? <==> (JavaShr(instruction, 6) & 0x7) + Offset6(instruction) >= 0x1_0000
    ensures r.Ok? ==>
      r.value.registers[Field3(instruction, 9)] == ReadCell(s, (JavaShr(instruction, 6) & 0x7) + Offset6(instruction))
    ensures r.Ok? ==> r.value.registers[JCond] == JFlagCode(r.value.registers[Field3(instruction, 9)])
    ensures r.Ok? ==> OthersUnchanged(s.registers, r.value.registers, Field3(instruction, 9), JCond)
  {
    var v :- JavaRead(s, (JavaShr(instruction, 6) & 0x7) + Offset6(instruction));
    Ok(WriteFlagged(s, Field3(instruction, 9), v))
  }

  /** `store`: memory[PC + offset9] := R[sr]. */
  function Store(s: JavaState, instruction: bv32): (r: Result<JavaState, Thrown>)
    ensures r.Err? <==> s.registers[JPc] + Offset9(instruction) >= 0x1_0000
    ensures r.Ok? ==> StoredAt(s, r.value, s.registers[JPc] + Offset9(instruction), s.registers[Field3(instruction, 9)])
  {
    JavaWrite(s, s.registers[JPc] + Offset9(instruction), s.registers[Field3(instruction, 9)])
  }

  /** `storeIndirect`: memory[memory[R_PC + offset9]] := R[sr]. The indirect
      cell is addressed from the constant `R_PC` = 8, not from the PC's
      value. */
  function StoreIndirect(s: JavaState, instruction: bv32): (r: Result<JavaState, Thrown>)
    ensures JPc as bv32 + Offset9(instruction) >= 0x1_0000 ==> r.Err?
    ensures JPc as bv32 + Offset9(instruction) < 0x1_0000 ==>
      (r.Err? <==> ReadCell(s, JPc as bv32 + Offset9(instruction)) >= 0x1_0000)
    ensures r.Ok? ==>
      StoredAt(s, r.value, ReadCell(s, JPc as bv32 + Offset9(instruction)), s.registers[Field3(instruction, 9)])
  {
    var indirect :- JavaRead(s, JPc as bv32 + Offset9(instruction));
    JavaWrite(s, indirect, s.registers[Field3(instruction, 9)])
  }

  /** `storeRegister`: memory[baseR + imm5] := R[sr], with `baseR` the
      register's number and a 5-bit offset where the ISA has six bits. */
  function StoreRegister(s: JavaState, instruction: bv32): (r: Result<JavaState, Thrown>)
    ensures r.Err? <==> (JavaShr(instruction, 6) & 0x7) + Imm5(instruction) >= 0x1_0000
    ensures r.Ok? ==> StoredAt(s, r.value, (JavaShr(instruction, 6) & 0x7) + Imm5(instruction), s.registers[Field3(instruction, 9)])
  {
    JavaWrite(s, (JavaShr(instruction, 6) & 0x7) + Imm5(instruction), s.registers[Field3(instruction, 9)])
  }

  // ---------------------------------------------------------------------
  // Control
  // ---------------------------------------------------------------------

  /** `branch`: PC += offset9 when any of the n, z, p bits is set; COND is
      not consulted. */
  function Branch(s: JavaState, instruction: bv32): (r: JavaState)
    ensures !Bit(instruction, 11) && !Bit(instruction, 10) && !Bit(instruction, 9) ==> r == s
    ensures Bit(instruction, 11) || Bit(instruction, 10) || Bit(instruction, 9) ==>
      r == s.(registers := s.registers[JPc := s.registers[JPc] + Offset9(instruction)])
  {
    if (JavaShr(instruction, 0xB) & 0x1) | (JavaShr(instruction, 0xA) & 0x1) | (JavaShr(instruction, 0x9) & 0x1) == 1 then s.(registers := s.registers[JPc := s.registers[JPc] + Offset9(instruction)])
    else s
  }

  /** `jump`: PC := registers[instruction >> 7]. For every JMP word the index
      is at least 0x180, past the ten registers, so the handler throws. */
  function Jump(s: JavaState, instruction: bv32): (r: Result<JavaState, Thrown>)
    ensures r.Err? <==> JavaShr(instruction, 7) >= JavaRegisterCount as bv32
    ensures r.Err? ==> r.error == IndexOutOfBounds(JavaShr(instruction, 7))
    ensures 0xC000 <= instruction < 0xD000 ==> r.Err?
    ensures r.Ok? ==> r.value == s.(registers := s.registers[JPc := s.registers[JavaShr(instruction, 7) as int]])
  {
    if JavaShr(instruction, 7) < JavaRegisterCount as bv32 then
      Ok(s.(registers := s.registers[JPc := s.registers[JavaShr(instruction, 7) as int]]))
    else Err(IndexOutOfBounds(JavaShr(instruction, 7)))
  }

  /** `jumpRegister`: R7 := PC; then PC += offset11 (bit 11 set) or
      PC := baseR, the register's number rather than its contents. */
  function JumpRegister(s: JavaState, instruction: bv32): (r: JavaState)
    ensures r.registers[JR7] == s.registers[JPc]
    ensures Bit(instruction, 11) ==> r.registers[JPc] == s.registers[JPc] + Offset11(instruction)
    ensures !Bit(instruction, 11) ==> r.registers[JPc] == (JavaShr(instruction, 6) & 0x7)
    ensures OthersUnchanged(s.registers, r.registers, JR7, JPc)
    ensures r.memory == s.memory && r.running == s.running && r.input == s.input
  {
    if Bit(instruction, 11) then
      s.(registers := s.registers[JR7 := s.registers[JPc]][JPc := s.registers[JPc] + Offset11(instruction)])
    else
      s.(registers := s.registers[JR7 := s.registers[JPc]][JPc := (JavaShr(instruction, 6) & 0x7)])
  }

  // ---------------------------------------------------------------------
  // Traps and the loop
  // ---------------------------------------------------------------------

  /** `getc`: R0 := `System.in.read()`, which is -1 at end of input. */
  function Getc(s: JavaState): (r: JavaState)
    ensures |s.input| > 0 ==> r.registers[JR0] == s.input[0] as bv32 && r.input == s.input[1..]
    ensures |s.input| == 0 ==> r.registers[JR0] == 0xFFFF_FFFF && r.input == []
    ensures OthersUnchanged(s.registers, r.registers, JR0, JR0)
    ensures r.memory == s.memory && r.running == s.running
  {
    if |s.input| == 0 then s.(registers := s.registers[JR0 := 0xFFFF_FFFF])
    else s.(registers := s.registers[JR0 := s.input[0] as bv32], input := s.input[1..])
  }

  /** `in`: `c = (char) System.in.read()`, then R0 := c. Unlike the C
      routine, R0 receives the character; at end of input the `char` cast
      turns -1 into 0xFFFF. */
  function In(s: JavaState): (r: JavaState)
    ensures |s.input| > 0 ==> r.registers[JR0] == s.input[0] as bv32 && r.input == s.input[1..]
    ensures |s.input| == 0 ==> r.registers[JR0] == 0xFFFF && r.input == []
    ensures OthersUnchanged(s.registers, r.registers, JR0, JR0)
    ensures r.memory == s.memory && r.running == s.running
  {
    if |s.input| == 0 then s.(registers := s.registers[JR0 := 0xFFFF_FFFF & 0xFFFF])
    else s.(registers := s.registers[JR0 := (s.input[0] as bv32) & 0xFFFF], input := s.input[1..])
  }

  /** `halt`: `running = false`. */
  function Halt(s: JavaState): (r: JavaState)
    ensures !r.running
    ensures r.memory == s.memory && r.registers == s.registers && r.input == s.input
  {
    s.(running := false)
  }

  /** The word `main` fetched, the opcode it computed, and the state after
      the fetch. */
  datatype Fetched = Fetched(instruction: bv32, operation: bv32, s: JavaState)

  /** `instruction = memoryRead(registers[R_PC]++)` and
      `operation = instruction >> 12`: the PC is read, incremented in 32-bit
      arithmetic, and the cell at the old PC fetched. */
  function Fetch(s: JavaState): (r: Result<Fetched, Thrown>)
    ensures r.Err? <==> s.registers[JPc] >= 0x1_0000
    ensures r.Ok? ==> r.value.instruction == ReadCell(s, s.registers[JPc])
    ensures r.Ok? ==> r.value.operation == JavaShr(r.value.instruction, 12)
    ensures r.Ok? ==> r.value.s == s.(registers := s.registers[JPc := s.registers[JPc] + 1])
  {
    var instruction :- JavaRead(s, s.registers[JPc]);
    Ok(Fetched(instruction, JavaShr(instruction, 12), s.(registers := s.registers[JPc := s.registers[JPc] + 1])))
  }

  /** One turn of `while (running)` in `main`: a fetch and an empty switch
      arm, whatever the opcode. */
  function Cycle(s: JavaState): (r: Result<JavaState, Thrown>)
    ensures r.Ok? ==> r.value.memory == s.memory && r.value.running == s.running
    ensures r.Ok? ==> r.value.registers == s.registers[JPc := s.registers[JPc] + 1]
    ensures r.Err? <==> s.registers[JPc] >= 0x1_0000
    ensures r.Ok? ==> r.value == s.(registers := s.registers[JPc := s.registers[JPc] + 1])
  {
    var fetched :- Fetch(s);
    Ok(fetched.s)
  }
}
