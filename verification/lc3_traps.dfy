/** The trap routines of the C LC-3 emulator, selected by the low eight bits
    of a TRAP instruction. Console output is the byte sequence `output` and
    console input the byte sequence `input`; the prompt of IN and the message
    of HALT are not part of this model. The routines run in place: unlike the
    ISA, TRAP does not save the return address in R7. */
module Lc3Traps {
  import opened Wrappers
  import opened Lc3Defs
  import opened Lc3Machine
  import opened Bytes

  // ---------------------------------------------------------------------
  // Characters of a word: `(char) w` is its low byte, `(char) (w >> 8)`
  // its high byte
  // ---------------------------------------------------------------------

  /** The low bytes of a run of words, one character per word. */
  function LowBytes(ws: seq<bv16>): (bs: seq<bv8>)
    ensures |bs| == |ws|
    ensures forall k :: 0 <= k < |ws| ==> bs[k] == LowByte(ws[k])
  {
    if |ws| == 0 then [] else [LowByte(ws[0])] + LowBytes(ws[1..])
  }

  /** The characters PUTSP writes for one word: the low byte always, then the
      high byte unless it is zero. */
  function PackedChars(w: bv16): (bs: seq<bv8>)
    ensures 1 <= |bs| <= 2
    ensures bs[0] == LowByte(w)
    ensures |bs| == 2 <==> HighByte(w) != 0
    ensures |bs| == 2 ==> bs[1] == HighByte(w)
  {
    if HighByte(w) != 0 then [LowByte(w), HighByte(w)] else [LowByte(w)]
  }

  /** The characters PUTSP writes for a run of words. */
  function PackedBytes(ws: seq<bv16>): (bs: seq<bv8>)
    ensures |ws| <= |bs| <= 2 * |ws|
  {
    if |ws| == 0 then [] else PackedChars(ws[0]) + PackedBytes(ws[1..])
  }

  /** Every word of a packed string contributes its two bytes, less the high
      byte when that is zero: packing distributes over concatenation. */
  lemma {:induction false} PackedBytesAppend(ws: seq<bv16>, vs: seq<bv16>)
    ensures PackedBytes(ws + vs) == PackedBytes(ws) + PackedBytes(vs)
  {
    if |ws| == 0 {
      assert ws + vs == vs;
    } else {
      assert (ws + vs)[1..] == ws[1..] + vs;
      PackedBytesAppend(ws[1..], vs);
    }
  }

  // ---------------------------------------------------------------------
  // Zero-terminated strings in memory
  // ---------------------------------------------------------------------

  /** The string that starts at cell `start` ends at cell `end`: `end` is the
      first cell at or after `start` that holds zero. */
  predicate StringEndsAt(mem: Memory, start: nat, end: nat) {
    start <= end < MemoryCells && mem[end] == 0
    && forall k :: start <= k < end ==> mem[k] != 0
  }

  /** A string has at most one end. */
  lemma StringEndUnique(mem: Memory, start: nat, e1: nat, e2: nat)
    requires StringEndsAt(mem, start, e1) && StringEndsAt(mem, start, e2)
    ensures e1 == e2
  {
  }

  /** The walk `while (*ptr) ptr++` from cell `i`: the index of the terminating
      zero, or a fault when every cell up to the end of the array is nonzero
      and `ptr` runs past it. */
  function StringEnd(mem: Memory, i: nat): (r: Result<nat, Fault>)
    requires i <= MemoryCells
    ensures r.Ok? ==> StringEndsAt(mem, i, r.value)
    ensures r.Err? ==> r.error == NoCell(0xFFFF)
    ensures r.Err? ==> forall k :: i <= k < MemoryCells ==> mem[k] != 0
    decreases MemoryCells - i
  {
    if i == MemoryCells then Err(NoCell(0xFFFF))
    else if mem[i] == 0 then Ok(i)
    else StringEnd(mem, i + 1)
  }

  // ---------------------------------------------------------------------
  // The routines
  // ---------------------------------------------------------------------

  /** The cell R0 points at, as an index into memory. */
  function R0Index(m: Machine): (i: nat)
    ensures i <= MemoryCells
  {
    m.regs[0] as nat
  }

  /** GETC: R0 := `(uint16_t) getchar()`, so R0 = 0xFFFF once the input is
      exhausted. COND is not updated. */
  function Getc(m: Machine): (r: Machine)
    ensures |m.input| > 0 ==> r.regs[0] == m.input[0] as bv16 && m.input == [m.input[0]] + r.input
    ensures |m.input| == 0 ==> r.regs[0] == 0xFFFF && r.input == []
    ensures RegsAgreeExcept(m.regs, r.regs, 0)
    ensures r.mem == m.mem && r.pc == m.pc && r.cond == m.cond && r.running == m.running
    ensures r.output == m.output
  {
    m.(regs := SetReg(m.regs, 0, GetcharWord(m.input)), input := Consume(m.input))
  }

  /** OUT: writes the low byte of R0. */
  function Out(m: Machine): (r: Machine)
    ensures r.output == m.output + [LowByte(m.regs[0])]
    ensures r == m.(output := r.output)
  {
    m.(output := m.output + [LowByte(m.regs[0])])
  }

  /** IN: reads one character and echoes it. Unlike the ISA, the character
      is never stored in R0: the machine changes only in its console streams.
      At end of input the echoed byte is 0xFF, EOF cast to `char`. */
  function In(m: Machine): (r: Machine)
    ensures |m.input| > 0 ==> r.output == m.output + [m.input[0]] && r.input == m.input[1..]
    ensures |m.input| == 0 ==> r.output == m.output + [0xFF] && r.input == []
    ensures r == m.(input := r.input, output := r.output)
  {
    m.(input := Consume(m.input), output := m.output + [GetcharByte(m.input)])
  }

  /** PUTS: writes one character per word from the cell R0 points at up to,
      and not including, the first zero word. The walk reads the memory array
      directly, without the device registers of `memoryRead`. */
  function Puts(m: Machine): (r: Result<Machine, Fault>)
    ensures forall end: nat :: StringEndsAt(m.mem, R0Index(m), end) ==>
      r == Ok(m.(output := m.output + LowBytes(m.mem[R0Index(m)..end])))
    ensures (forall k :: R0Index(m) <= k < MemoryCells ==> m.mem[k] != 0) ==> r == Err(NoCell(0xFFFF))
    // only the output changes, and the only fault is the missing cell
    ensures r.Ok? ==> r.value == m.(output := r.value.output)
    ensures r.Err? ==> r.error == NoCell(0xFFFF)
  {
    var end :- StringEnd(m.mem, R0Index(m));
    Ok(m.(output := m.output + LowBytes(m.mem[R0Index(m)..end])))
  }

  /** PUTSP: like PUTS, with two characters packed per word, low byte first;
      a zero high byte is skipped. */
  function Putsp(m: Machine): (r: Result<Machine, Fault>)
    ensures forall end: nat :: StringEndsAt(m.mem, R0Index(m), end) ==>
      r == Ok(m.(output := m.output + PackedBytes(m.mem[R0Index(m)..end])))
    ensures (forall k :: R0Index(m) <= k < MemoryCells ==> m.mem[k] != 0) ==> r == Err(NoCell(0xFFFF))
    // only the output changes, and the only fault is the missing cell
    ensures r.Ok? ==> r.value == m.(output := r.value.output)
    ensures r.Err? ==> r.error == NoCell(0xFFFF)
  {
    var end :- StringEnd(m.mem, R0Index(m));
    Ok(m.(output := m.output + PackedBytes(m.mem[R0Index(m)..end])))
  }

  /** HALT: clears `running`, which ends the fetch loop. */
  function Halt(m: Machine): (r: Machine)
    ensures !r.running
    ensures r == m.(running := false)
  {
    m.(running := false)
  }

  /** TRAP: dispatch on the trap vector. A vector other than the six routines
      does nothing. */
  function Trap(m: Machine, f: Fields): (r: Result<Machine, Fault>)
    ensures f.trapVector !in TrapVectors ==> r == Ok(m)
    ensures f.trapVector == TrapHalt ==> r == Ok(Halt(m))
    ensures f.trapVector == TrapGetc ==> r == Ok(Getc(m))
    ensures f.trapVector == TrapOut ==> r == Ok(Out(m))
    ensures f.trapVector == TrapIn ==> r == Ok(In(m))
    ensures f.trapVector == TrapPuts ==> r == Puts(m)
    ensures f.trapVector == TrapPutsp ==> r == Putsp(m)
    // no routine touches R7, PC or COND
    ensures r.Ok? ==> r.value.regs[RegR7] == m.regs[RegR7] && r.value.pc == m.pc && r.value.cond == m.cond
    ensures r.Ok? ==> r.value.mem == m.mem
    ensures r.Err? ==> r.error == NoCell(0xFFFF)
  {
    if f.trapVector == TrapGetc then Ok(Getc(m))
    else if f.trapVector == TrapIn then Ok(In(m))
    else if f.trapVector == TrapOut then Ok(Out(m))
    else if f.trapVector == TrapPutsp then Putsp(m)
    else if f.trapVector == TrapPuts then Puts(m)
    else if f.trapVector == TrapHalt then Ok(Halt(m))
    else Ok(m)
  }
}
