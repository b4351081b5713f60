/** The Java and C loads and stores that address memory from the PC: LD,
    LDI and ST. Where both programs reach an ordinary cell they read and
    write the same cell, and agreement of registers and memory modulo 2^16
    is kept. They differ at the edges: Java throws for an address at or
    beyond 0x10000 where C wraps modulo 2^16, Java has a cell at 0xFFFF
    where C faults, and C answers the device registers where Java reads
    plain cells. */
module JavaMemoryAgreement {
  import opened Wrappers
  import opened Lc3Defs
  import opened Lc3Machine
  import opened Lc3Ops
  import opened JavaVm
  import opened JavaAgreement
  import opened JavaHandlerAgreement

  /** Every cell of the C array agrees, modulo 2^16, with the Java cell of
      the same index. Both arrays have 65536 entries; C never reads or
      writes its last one. */
  predicate MemoryAgrees(s: JavaState, m: Machine) {
    forall k :: 0 <= k <= MemoryCells ==> Agree(s.memory[k], m.mem[k])
  }

  /** An in-range Java index that agrees with a C address is that address. */
  lemma IndexAgrees(a: bv32, c: bv16)
    requires a < 0x1_0000 && Agree(a, c)
    ensures Index(a) == c as int
  {
    assert a as bv16 == c;
  }

  /** Reading a cell both programs have, at agreeing addresses, gives
      agreeing words. */
  lemma CellAgrees(s: JavaState, m: Machine, a: bv32, c: bv16)
    requires MemoryAgrees(s, m) && a < 0x1_0000 && Agree(a, c)
    ensures Agree(ReadCell(s, a), m.mem[c as int])
  {
    IndexAgrees(a, c);
    var k := c as int;
    assert Agree(s.memory[k], m.mem[k]);
  }

  /** Java read the cell at `a` into register `d` and C read the cell at
      `c` into the same register, memory untouched on both sides: when the
      addresses agree, registers and memory stay in agreement. */
  lemma ReadKeepsAgreement(s: JavaState, m: Machine, s': JavaState, m': Machine, a: bv32, c: bv16, d: RegIndex)
    requires RegistersAgree(s, m) && MemoryAgrees(s, m) && a < 0x1_0000 && Agree(a, c)
    requires JavaWrote(s, s', d, ReadCell(s, a)) && s'.memory == s.memory
    requires CWrote(m, m', d, m.mem[c as int]) && m'.mem == m.mem
    ensures RegistersAgree(s', m') && MemoryAgrees(s', m')
  {
    CellAgrees(s, m, a, c);
    WriteKeepsAgreement(s, m, s', m', d, d, ReadCell(s, a), m.mem[c as int]);
  }

  /** The same through an indirect cell: Java followed the word at `a`, C
      the word at `c`, to the word each loaded into `d`. */
  lemma IndirectReadKeepsAgreement(s: JavaState, m: Machine, s': JavaState, m': Machine, a: bv32, c: bv16, d: RegIndex)
    requires RegistersAgree(s, m) && MemoryAgrees(s, m) && a < 0x1_0000 && Agree(a, c)
    requires ReadCell(s, a) < 0x1_0000
    requires JavaWrote(s, s', d, ReadCell(s, ReadCell(s, a))) && s'.memory == s.memory
    requires CWrote(m, m', d, m.mem[m.mem[c as int] as int]) && m'.mem == m.mem
    ensures RegistersAgree(s', m') && MemoryAgrees(s', m')
  {
    CellAgrees(s, m, a, c);
    ReadKeepsAgreement(s, m, s', m', ReadCell(s, a), m.mem[c as int], d);
  }

  /** Storing agreeing words at agreeing addresses keeps registers and
      memory in agreement. */
  lemma StoreKeepsAgreement(s: JavaState, m: Machine, s': JavaState, m': Machine, a: bv32, c: bv16, v: bv32, w: bv16)
    requires RegistersAgree(s, m) && MemoryAgrees(s, m)
    requires a < 0x1_0000 && Agree(a, c) && Agree(v, w)
    requires StoredAt(s, s', a, v) && StoredOneCell(m, m', c, w)
    ensures RegistersAgree(s', m') && MemoryAgrees(s', m')
  {
    IndexAgrees(a, c);
    forall k | 0 <= k <= MemoryCells
      ensures Agree(s'.memory[k], m'.mem[k])
    {
      if k != c as int {
        assert s'.memory[k] == s.memory[k];
      }
    }
  }

  /** `registers[d] = v; updateFlags(d)` writes `v` to `d`, touches no
      other register of R0..R7 or PC, and leaves memory alone. */
  lemma WriteFlaggedWrites(s: JavaState, d: RegIndex, v: bv32)
    ensures JavaWrote(s, WriteFlagged(s, d, v), d, v)
    ensures WriteFlagged(s, d, v).memory == s.memory
  {
  }

  // ---------------------------------------------------------------------
  // LD
  // ---------------------------------------------------------------------

  /** Java's `load` at an in-range address reads the cell into DR. */
  lemma LoadReads(s: JavaState, j: bv32)
    requires s.registers[JPc] + Offset9(j) < 0x1_0000
    ensures Load(s, j) == Ok(WriteFlagged(s, Field3(j, 9), ReadCell(s, s.registers[JPc] + Offset9(j))))
  {
  }

  lemma LoadWrites(s: JavaState, j: bv32)
    requires s.registers[JPc] + Offset9(j) < 0x1_0000
    ensures Load(s, j).Ok?
    ensures JavaWrote(s, Load(s, j).value, Field3(j, 9), ReadCell(s, s.registers[JPc] + Offset9(j)))
    ensures Load(s, j).value.memory == s.memory
  {
    LoadReads(s, j);
    WriteFlaggedWrites(s, Field3(j, 9), ReadCell(s, s.registers[JPc] + Offset9(j)));
  }

  /** C's `ld` from an ordinary cell wrote the cell's word to DR. */
  lemma LdWrites(m: Machine, f: Fields)
    requires PlainCell(PcRelative(m, f))
    ensures Ld(m, f).Ok?
    ensures CWrote(m, Ld(m, f).value, f.dr, m.mem[PcRelative(m, f) as int])
    ensures Ld(m, f).value.mem == m.mem
  {
  }

  /** `load` and `ld` read the same ordinary cell into the same register.
      Whenever the two decodings of an instruction word match (as
      `DecodeMatches` proves for every word), Java's address is below
      0x10000 and C's is neither a device register nor 0xFFFF, registers and
      memory stay in agreement. */
  lemma LoadAgrees(s: JavaState, m: Machine, j: bv32, f: Fields)
    requires RegistersAgree(s, m) && MemoryAgrees(s, m)
    requires RegistersNamed(j, f) && Agree(Offset9(j), f.offset9)
    requires s.registers[JPc] + Offset9(j) < 0x1_0000 && PlainCell(PcRelative(m, f))
    ensures Load(s, j).Ok? && Ld(m, f).Ok?
    ensures RegistersAgree(Load(s, j).value, Ld(m, f).value)
    ensures MemoryAgrees(Load(s, j).value, Ld(m, f).value)
  {
    LeaAddressAgrees(s, m, j, f);
    LoadWrites(s, j);
    LdWrites(m, f);
    ReadKeepsAgreement(s, m, Load(s, j).value, Ld(m, f).value,
      s.registers[JPc] + Offset9(j), PcRelative(m, f), f.dr);
  }

  // ---------------------------------------------------------------------
  // LDI
  // ---------------------------------------------------------------------

  /** Java's `loadIndirect` through two in-range addresses reads the word
      the indirect cell addresses into DR. */
  lemma LoadIndirectReads(s: JavaState, j: bv32)
    requires s.registers[JPc] + Offset9(j) < 0x1_0000
    requires ReadCell(s, s.registers[JPc] + Offset9(j)) < 0x1_0000
    ensures LoadIndirect(s, j) ==
      Ok(WriteFlagged(s, Field3(j, 9), ReadCell(s, ReadCell(s, s.registers[JPc] + Offset9(j)))))
  {
  }

  lemma LoadIndirectWrites(s: JavaState, j: bv32)
    requires s.registers[JPc] + Offset9(j) < 0x1_0000
    requires ReadCell(s, s.registers[JPc] + Offset9(j)) < 0x1_0000
    ensures LoadIndirect(s, j).Ok?
    ensures JavaWrote(s, LoadIndirect(s, j).value, Field3(j, 9),
      ReadCell(s, ReadCell(s, s.registers[JPc] + Offset9(j))))
    ensures LoadIndirect(s, j).value.memory == s.memory
  {
    LoadIndirectReads(s, j);
    WriteFlaggedWrites(s, Field3(j, 9), ReadCell(s, ReadCell(s, s.registers[JPc] + Offset9(j))));
  }

  /** C's `ldi` through two ordinary cells wrote the word the indirect cell
      addresses. */
  lemma LdiWrites(m: Machine, f: Fields)
    requires PlainCell(PcRelative(m, f)) && PlainCell(m.mem[PcRelative(m, f) as int])
    ensures Ldi(m, f).Ok?
    ensures CWrote(m, Ldi(m, f).value, f.dr, m.mem[m.mem[PcRelative(m, f) as int] as int])
    ensures Ldi(m, f).value.mem == m.mem
  {
  }

  /** `loadIndirect` and `ldi` follow the same indirect cell to the same
      word, as long as the decodings match, both addresses are below
      0x10000 for Java and both cells are ordinary for C. Java then also
      sets COND, which C leaves alone. */
  lemma LoadIndirectAgrees(s: JavaState, m: Machine, j: bv32, f: Fields)
    requires RegistersAgree(s, m) && MemoryAgrees(s, m)
    requires RegistersNamed(j, f) && Agree(Offset9(j), f.offset9)
    requires s.registers[JPc] + Offset9(j) < 0x1_0000
    requires ReadCell(s, s.registers[JPc] + Offset9(j)) < 0x1_0000
    requires PlainCell(PcRelative(m, f)) && PlainCell(m.mem[PcRelative(m, f) as int])
    ensures LoadIndirect(s, j).Ok? && Ldi(m, f).Ok?
    ensures RegistersAgree(LoadIndirect(s, j).value, Ldi(m, f).value)
    ensures MemoryAgrees(LoadIndirect(s, j).value, Ldi(m, f).value)
  {
    LeaAddressAgrees(s, m, j, f);
    LoadIndirectWrites(s, j);
    LdiWrites(m, f);
    IndirectReadKeepsAgreement(s, m, LoadIndirect(s, j).value, Ldi(m, f).value,
      s.registers[JPc] + Offset9(j), PcRelative(m, f), f.dr);
  }

  // ---------------------------------------------------------------------
  // ST
  // ---------------------------------------------------------------------

  /** C's `st` to any address but 0xFFFF stores SR's word there. */
  lemma StWrites(m: Machine, f: Fields)
    requires PcRelative(m, f) != 0xFFFF
    ensures St(m, f).Ok? && StoredOneCell(m, St(m, f).value, PcRelative(m, f), m.regs[f.dr])
  {
  }

  /** `store` and `st` write the same word to the same cell. Whenever the
      two decodings of an instruction word match (as `DecodeMatches` proves
      for every word), Java's address is below 0x10000 and C's is not the
      missing cell 0xFFFF, the state Java's store produces and C's stored
      machine agree in registers and memory. A device address is stored
      like any other cell by both. */
  lemma StoreAgrees(s: JavaState, m: Machine, j: bv32, f: Fields, s': JavaState)
    requires RegistersAgree(s, m) && MemoryAgrees(s, m)
    requires RegistersNamed(j, f) && Agree(Offset9(j), f.offset9)
    requires s.registers[JPc] + Offset9(j) < 0x1_0000 && PcRelative(m, f) != 0xFFFF
    requires Store(s, j) == Ok(s')
    ensures St(m, f).Ok?
    ensures RegistersAgree(s', St(m, f).value)
    ensures MemoryAgrees(s', St(m, f).value)
  {
    LeaAddressAgrees(s, m, j, f);
    RegisterAgreesAt(s, m, f.dr, f.dr);
    StWrites(m, f);
    StoreKeepsAgreement(s, m, s', St(m, f).value,
      s.registers[JPc] + Offset9(j), PcRelative(m, f), s.registers[f.dr], m.regs[f.dr]);
  }

}
