/** The fetch/decode/execute loop of the C LC-3 emulator (`emulate`): fetch
    the word at PC, advance PC, and dispatch on the top four bits. The loop
    runs while `running` holds; `Run` bounds it by a step count. */
module Lc3Step {
  import opened Wrappers
  import opened Lc3Defs
  import opened Lc3Machine
  import opened Lc3Ops
  import opened Lc3Traps
  import opened Lc3Loader

  /** Executes one instruction whose word is `instr`, PC already advanced.
      RTI and RES have no case in the emulator's switch, so they do nothing;
      the ISA would raise an exception for both. */
  function Execute(m: Machine, instr: bv16): (r: Result<Machine, Fault>)
    ensures OpcodeOf(instr) == RTI || OpcodeOf(instr) == RES ==> r == Ok(m)
    // every fault is an access to the missing cell
    ensures r.Err? ==> r.error == NoCell(0xFFFF)
  {
    Dispatch(m, OpcodeOf(instr), Decode(instr))
  }

  /** The `switch (opcode)` of `emulate`: the handler for `op`, given the
      fields of the instruction word. */
  function Dispatch(m: Machine, op: Opcode, f: Fields): (r: Result<Machine, Fault>)
    ensures op == RTI || op == RES ==> r == Ok(m)
    ensures r.Err? ==> r.error == NoCell(0xFFFF)
  {
    match op
    case ADD => Ok(Add(m, f))
    case AND => Ok(And(m, f))
    case BR => Ok(Br(m, f))
    case JMP => Ok(Jmp(m, f))
    case JSR => Ok(Jsr(m, f))
    case LD => Ld(m, f)
    case LDI => Ldi(m, f)
    case LDR => Ldr(m, f)
    case LEA => Ok(Lea(m, f))
    case NOT => Ok(Not(m, f))
    case ST => St(m, f)
    case STI => Sti(m, f)
    case STR => Str(m, f)
    case TRAP => Trap(m, f)
    case RTI => Ok(m)
    case RES => Ok(m)
  }

  /** Only TRAP halts the machine or writes output. */
  lemma OnlyTrapHaltsOrWrites(m: Machine, instr: bv16)
    requires OpcodeOf(instr) != TRAP && Execute(m, instr).Ok?
    ensures Execute(m, instr).value.running == m.running
    ensures Execute(m, instr).value.output == m.output
  {
  }

  /** Only the three stores write memory. */
  lemma OnlyStoresWriteMemory(m: Machine, instr: bv16)
    requires OpcodeOf(instr) != ST && OpcodeOf(instr) != STI && OpcodeOf(instr) != STR
    requires Execute(m, instr).Ok?
    ensures Execute(m, instr).value.mem == m.mem
  {
  }

  /** One cycle: `instruction = memoryRead(registers[R_PC]++)`, then execute.
      A fetch from a plain cell reads that cell, and the instruction sees PC
      already pointing past it (modulo 2^16). */
  function Step(m: Machine): (r: Result<Machine, Fault>)
    ensures m.pc == 0xFFFF ==> r == Err(NoCell(0xFFFF))
    ensures PlainCell(m.pc) ==> r == Execute(m.(pc := m.pc + 1), m.mem[m.pc as int])
  {
    var fetched :- MemoryRead(m, m.pc);
    Execute(fetched.m.(pc := m.pc + 1), fetched.value)
  }

  /** At most `fuel` cycles of `while (running)`, each cycle being `step`. The
      loop is stated over any cycle function so that facts about the loop do
      not depend on what one cycle does. */
  function Cycles(step: Machine -> Result<Machine, Fault>, m: Machine, fuel: nat): (r: Result<Machine, Fault>)
    ensures !m.running ==> r == Ok(m)
    ensures fuel == 0 ==> r == Ok(m)
    decreases fuel
  {
    if !m.running || fuel == 0 then Ok(m)
    else
      match step(m)
      case Err(e) => Err(e)
      case Ok(next) => Cycles(step, next, fuel - 1)
  }

  /** Running `a` cycles and then `b` more is running `a + b` cycles. */
  lemma {:induction false} CyclesAdditive(step: Machine -> Result<Machine, Fault>, m: Machine, a: nat, b: nat)
    requires Cycles(step, m, a).Ok?
    ensures Cycles(step, m, a + b) == Cycles(step, Cycles(step, m, a).value, b)
    decreases a
  {
    if !m.running || a == 0 {
    } else {
      CyclesAdditive(step, step(m).value, a - 1, b);
    }
  }

  /** The emulator's loop: at most `fuel` fetch/execute cycles. */
  function Run(m: Machine, fuel: nat): (r: Result<Machine, Fault>)
    ensures !m.running ==> r == Ok(m)
    ensures fuel == 0 ==> r == Ok(m)
    ensures m.running && fuel > 0 ==> r == (match Step(m) case Err(e) => Err(e) case Ok(next) => Run(next, fuel - 1))
    decreases fuel
  {
    Cycles(Step, m, fuel)
  }

  /** Once a run stops with `running` cleared, more fuel changes nothing. */
  lemma RunStaysHalted(m: Machine, a: nat, b: nat)
    requires Run(m, a).Ok? && !Run(m, a).value.running
    ensures Run(m, a + b) == Run(m, a)
  {
    CyclesAdditive(Step, m, a, b);
  }

  /** The state `emulate` starts from: PC = 0x3000, `running` set, and the
      register file still zero from static initialisation, so R0..R7 are 0
      and COND holds 0, which is FL_POS. */
  function Boot(mem: Memory, input: seq<bv8>): (m: Machine)
    ensures m.pc == 0x3000 && m.running && m.cond == Pos && CondCode(m.cond) == 0
    ensures forall i :: 0 <= i < 8 ==> m.regs[i] == 0
    ensures m.mem == mem && m.input == input && m.output == []
  {
    Machine(mem, [0, 0, 0, 0, 0, 0, 0, 0], 0x3000, Pos, true, input, [])
  }

  /** Why an emulation stopped short of a result. */
  datatype Failure = LoadFailed(load: LoadError) | Faulted(fault: Fault)

  /** The memory array before loading: all zero, as a static array is. */
  function ZeroMemory(): Memory {
    seq(MemoryCells + 1, _ => 0)
  }

  /** Load `image` into zeroed memory, boot, and run at most `fuel` cycles. */
  function Emulate(image: seq<bv8>, input: seq<bv8>, fuel: nat): (r: Result<Machine, Failure>)
    ensures |image| < 2 ==> r == Err(LoadFailed(MissingOrigin))
    ensures |image| >= 2 ==>
      (r.Ok? <==> Run(Boot(LoadImage(ZeroMemory(), image).value, input), fuel).Ok?)
    ensures |image| >= 2 && r.Ok? ==>
      r.value == Run(Boot(LoadImage(ZeroMemory(), image).value, input), fuel).value
    ensures |image| >= 2 && r.Err? ==>
      r.error == Faulted(Run(Boot(LoadImage(ZeroMemory(), image).value, input), fuel).error)
  {
    match LoadImage(ZeroMemory(), image)
    case Err(e) => Err(LoadFailed(e))
    case Ok(mem) =>
      match Run(Boot(mem, input), fuel)
      case Err(f) => Err(Faulted(f))
      case Ok(m) => Ok(m)
  }

  // ---------------------------------------------------------------------
  // Worked instructions and the emulator's departures from the ISA
  // ---------------------------------------------------------------------

  /** ADD R1, R2, #-1 (0x12BF) with R2 = 5 leaves 4 in R1 and COND positive. */
  lemma AddImmediateExample(m: Machine)
    requires m.regs[2] == 5
    ensures Execute(m, 0x12BF).Ok?
    ensures Execute(m, 0x12BF).value.regs[1] == 4
    ensures Execute(m, 0x12BF).value.cond == Pos
  {
    assert OpcodeOf(0x12BF) == ADD;
    assert Decode(0x12BF).dr == 1 && Decode(0x12BF).sr1 == 2;
  }

  /** AND R3, R4, R5 (0x5705) with R4 = 1010b and R5 = 0110b leaves 0010b in
      R3. COND keeps whatever it held: the handler does not update it. */
  lemma AndRegisterExample(m: Machine)
    requires m.regs[4] == 0xA && m.regs[5] == 0x6
    ensures Execute(m, 0x5705).Ok?
    ensures Execute(m, 0x5705).value.regs[3] == 0x2
    ensures Execute(m, 0x5705).value.cond == m.cond
  {
    assert OpcodeOf(0x5705) == AND;
    assert Decode(0x5705).dr == 3 && Decode(0x5705).sr1 == 4 && Decode(0x5705).sr2 == 5;
  }

  /** BRn +2 (0x0802) is taken whatever COND holds, positive included. */
  lemma BranchIgnoresCond(m: Machine)
    ensures Execute(m, 0x0802) == Ok(m.(pc := m.pc + 2))
  {
    assert OpcodeOf(0x0802) == BR;
    assert Decode(0x0802).n && Decode(0x0802).offset9 == 2;
  }

  /** Every JMP word jumps to R6, whichever register bits 8..6 name. */
  lemma JmpAlwaysUsesR6(m: Machine, instr: bv16)
    requires instr >> 12 == 0xC
    ensures Execute(m, instr) == Ok(m.(pc := m.regs[6]))
  {
    assert OpcodeOf(instr) == JMP;
    assert (instr >> 6) >> 7 == 6;
  }

  /** A TRAP leaves R7 as it was: no return address is saved. */
  lemma TrapKeepsR7(m: Machine, instr: bv16)
    requires instr >> 12 == 0xF
    requires Execute(m, instr).Ok?
    ensures Execute(m, instr).value.regs[RegR7] == m.regs[RegR7]
    ensures Execute(m, instr).value.pc == m.pc
  {
    assert OpcodeOf(instr) == TRAP;
  }

  /** TRAP IN (0xF023) consumes and echoes a character but leaves R0. */
  lemma InLeavesR0(m: Machine)
    requires |m.input| > 0
    ensures Execute(m, 0xF023) == Ok(m.(input := m.input[1..], output := m.output + [m.input[0]]))
  {
    assert OpcodeOf(0xF023) == TRAP;
    assert Decode(0xF023).trapVector == TrapIn;
  }

  /** TRAP GETC (0xF020) at end of input leaves 0xFFFF in R0. */
  lemma GetcAtEndOfInput(m: Machine)
    requires |m.input| == 0
    ensures Execute(m, 0xF020).Ok?
    ensures Execute(m, 0xF020).value.regs[0] == 0xFFFF
  {
    assert OpcodeOf(0xF020) == TRAP;
    assert Decode(0xF020).trapVector == TrapGetc;
  }

  /** A HALT word (0xF025) at PC stops the run after one cycle, with PC past
      the HALT, and further cycles change nothing. */
  lemma HaltStopsRun(m: Machine, fuel: nat)
    requires m.running && PlainCell(m.pc) && m.mem[m.pc as int] == 0xF025
    ensures Run(m, fuel + 1) == Ok(m.(pc := m.pc + 1, running := false))
  {
    assert OpcodeOf(0xF025) == TRAP;
    assert Decode(0xF025).trapVector == TrapHalt;
    assert Step(m) == Ok(m.(pc := m.pc + 1, running := false));
  }
}
