/** The Java handlers and the C handlers, instruction by instruction: from
    agreeing registers, both reach agreeing registers. */
module JavaHandlerAgreement {
  import opened Lc3Defs
  import opened Lc3Machine
  import opened Lc3Ops
  import opened JavaVm
  import opened JavaAgreement

  /** The Java handlers read the same register numbers from the word `j`
      as C decodes into `f`. */
  predicate RegistersNamed(j: bv32, f: Fields) {
    Field3(j, 9) == f.dr && Field3(j, 6) == f.sr1 && Field3(j, 0) == f.sr2
  }

  /** ... the same mode bits ... */
  predicate ModesMatch(j: bv32, f: Fields) {
    && Bit(j, 5) == f.immFlag && Bit(j, 11) == f.longFlag
    && (Bit(j, 11) || Bit(j, 10) || Bit(j, 9)) == (f.n || f.z || f.p)
  }

  /** ... and offsets agreeing modulo 2^16. */
  predicate OffsetsMatch(j: bv32, f: Fields) {
    Agree(Imm5(j), f.imm5) && Agree(Offset9(j), f.offset9) && Agree(Offset11(j), f.offset11)
  }

  /** Every 16-bit word, widened, matches its own C decoding. */
  lemma DecodeMatches(instr: bv16)
    ensures RegistersNamed(instr as bv32, Decode(instr))
    ensures ModesMatch(instr as bv32, Decode(instr))
    ensures OffsetsMatch(instr as bv32, Decode(instr))
  {
    RegisterFieldsAgree(instr);
    OffsetsAgree(instr);
    assert Bit(instr as bv32, 10) == Decode(instr).z;
    assert Bit(instr as bv32, 9) == Decode(instr).p;
  }

  /** A register of R0..R7 in agreement, named on each side by its own
      expression for the same number. */
  lemma RegisterAgreesAt(s: JavaState, m: Machine, x: RegIndex, a: RegIndex)
    requires RegistersAgree(s, m) && x == a
    ensures Agree(s.registers[x], m.regs[a])
  {
  }

  /** The source registers each side reads agree. */
  lemma OperandsAgree(s: JavaState, m: Machine, j: bv32, f: Fields)
    requires RegistersAgree(s, m) && RegistersNamed(j, f)
    ensures Agree(s.registers[Field3(j, 6)], m.regs[f.sr1])
    ensures Agree(s.registers[Field3(j, 0)], m.regs[f.sr2])
  {
    RegisterAgreesAt(s, m, Field3(j, 6), f.sr1);
    RegisterAgreesAt(s, m, Field3(j, 0), f.sr2);
  }

  // ---------------------------------------------------------------------
  // The values the handlers compute agree
  // ---------------------------------------------------------------------

  lemma SumOfOperands(s: JavaState, m: Machine, j: bv32, f: Fields)
    requires Agree(s.registers[Field3(j, 6)], m.regs[f.sr1]) && Agree(s.registers[Field3(j, 0)], m.regs[f.sr2])
    ensures Agree(s.registers[Field3(j, 6)] + s.registers[Field3(j, 0)], m.regs[f.sr1] + m.regs[f.sr2])
  {
    AgreeAdd(s.registers[Field3(j, 6)], s.registers[Field3(j, 0)], m.regs[f.sr1], m.regs[f.sr2]);
  }

  lemma SumWithImmediate(s: JavaState, m: Machine, j: bv32, f: Fields)
    requires Agree(s.registers[Field3(j, 6)], m.regs[f.sr1]) && Agree(Imm5(j), f.imm5)
    ensures Agree(s.registers[Field3(j, 6)] + Imm5(j), m.regs[f.sr1] + f.imm5)
  {
    AgreeAdd(s.registers[Field3(j, 6)], Imm5(j), m.regs[f.sr1], f.imm5);
  }

  lemma ConjunctionOfOperands(s: JavaState, m: Machine, j: bv32, f: Fields)
    requires Agree(s.registers[Field3(j, 6)], m.regs[f.sr1]) && Agree(s.registers[Field3(j, 0)], m.regs[f.sr2])
    ensures Agree(s.registers[Field3(j, 6)] & s.registers[Field3(j, 0)], m.regs[f.sr1] & m.regs[f.sr2])
  {
    AgreeAnd(s.registers[Field3(j, 6)], s.registers[Field3(j, 0)], m.regs[f.sr1], m.regs[f.sr2]);
  }

  lemma ConjunctionWithImmediate(s: JavaState, m: Machine, j: bv32, f: Fields)
    requires Agree(s.registers[Field3(j, 6)], m.regs[f.sr1]) && Agree(Imm5(j), f.imm5)
    ensures Agree(s.registers[Field3(j, 6)] & Imm5(j), m.regs[f.sr1] & f.imm5)
  {
    AgreeAnd(s.registers[Field3(j, 6)], Imm5(j), m.regs[f.sr1], f.imm5);
  }

  lemma ComplementOfOperand(s: JavaState, m: Machine, j: bv32, f: Fields)
    requires Agree(s.registers[Field3(j, 6)], m.regs[f.sr1])
    ensures Agree(!s.registers[Field3(j, 6)], !m.regs[f.sr1])
  {
    AgreeNot(s.registers[Field3(j, 6)], m.regs[f.sr1]);
  }

  lemma PcOffsetAgrees(s: JavaState, m: Machine, o: bv32, c: bv16)
    requires Agree(s.registers[JPc], m.pc) && Agree(o, c)
    ensures Agree(s.registers[JPc] + o, m.pc + c)
  {
    AgreeAdd(s.registers[JPc], o, m.pc, c);
  }

  /** The Java address PC + `o` agrees with C's PC-relative address. */
  lemma PcRelativeAgrees(s: JavaState, m: Machine, f: Fields, o: bv32)
    requires Agree(s.registers[JPc], m.pc) && Agree(o, f.offset9)
    ensures Agree(s.registers[JPc] + o, PcRelative(m, f))
  {
    AgreeAdd(s.registers[JPc], o, m.pc, f.offset9);
  }

  lemma LeaAddressAgrees(s: JavaState, m: Machine, j: bv32, f: Fields)
    requires Agree(s.registers[JPc], m.pc) && Agree(Offset9(j), f.offset9)
    ensures Agree(s.registers[JPc] + Offset9(j), PcRelative(m, f))
  {
    PcRelativeAgrees(s, m, f, Offset9(j));
  }

  lemma BranchTargetAgrees(s: JavaState, m: Machine, j: bv32, f: Fields)
    requires Agree(s.registers[JPc], m.pc) && Agree(Offset9(j), f.offset9)
    ensures Agree(s.registers[JPc] + Offset9(j), m.pc + f.offset9)
  {
    PcOffsetAgrees(s, m, Offset9(j), f.offset9);
  }

  lemma JsrTargetAgrees(s: JavaState, m: Machine, j: bv32, f: Fields)
    requires Agree(s.registers[JPc], m.pc) && Agree(Offset11(j), f.offset11)
    ensures Agree(s.registers[JPc] + Offset11(j), m.pc + f.offset11)
  {
    PcOffsetAgrees(s, m, Offset11(j), f.offset11);
  }

  // ---------------------------------------------------------------------
  // Writing or jumping to agreeing values keeps the registers in agreement
  // ---------------------------------------------------------------------

  lemma LeaKeepsAgreement(s: JavaState, m: Machine, s': JavaState, m': Machine, j: bv32, f: Fields)
    requires RegistersAgree(s, m) && Field3(j, 9) == f.dr
    requires Agree(s.registers[JPc] + Offset9(j), PcRelative(m, f))
    requires JavaWrote(s, s', Field3(j, 9), s.registers[JPc] + Offset9(j))
    requires CWrote(m, m', f.dr, PcRelative(m, f))
    ensures RegistersAgree(s', m')
  {
    WriteKeepsAgreement(s, m, s', m', Field3(j, 9), f.dr, s.registers[JPc] + Offset9(j), PcRelative(m, f));
  }

  lemma BranchKeepsAgreement(s: JavaState, m: Machine, s': JavaState, m': Machine, j: bv32, f: Fields)
    requires RegistersAgree(s, m)
    requires Agree(s.registers[JPc] + Offset9(j), m.pc + f.offset9)
    requires JavaJumped(s, s', s.registers[JPc] + Offset9(j), false)
    requires CJumped(m, m', m.pc + f.offset9, false)
    ensures RegistersAgree(s', m')
  {
    JumpKeepsAgreement(s, m, s', m', s.registers[JPc] + Offset9(j), m.pc + f.offset9, false);
  }

  lemma JsrKeepsAgreement(s: JavaState, m: Machine, s': JavaState, m': Machine, j: bv32, f: Fields)
    requires RegistersAgree(s, m)
    requires Agree(s.registers[JPc] + Offset11(j), m.pc + f.offset11)
    requires JavaJumped(s, s', s.registers[JPc] + Offset11(j), true)
    requires CJumped(m, m', m.pc + f.offset11, true)
    ensures RegistersAgree(s', m')
  {
    JumpKeepsAgreement(s, m, s', m', s.registers[JPc] + Offset11(j), m.pc + f.offset11, true);
  }

  // ---------------------------------------------------------------------
  // The Java handlers' contracts, one case at a time
  // ---------------------------------------------------------------------

  lemma AddOpImmediate(s: JavaState, j: bv32)
    requires Bit(j, 5)
    ensures AddOp(s, j).registers[Field3(j, 9)] == s.registers[Field3(j, 6)] + Imm5(j)
  {
  }

  lemma AddOpRegister(s: JavaState, j: bv32)
    requires !Bit(j, 5)
    ensures AddOp(s, j).registers[Field3(j, 9)] == s.registers[Field3(j, 6)] + s.registers[Field3(j, 0)]
  {
  }

  lemma AddOpFrame(s: JavaState, j: bv32)
    ensures OthersUnchanged(s.registers, AddOp(s, j).registers, Field3(j, 9), JCond)
  {
  }

  lemma BitwiseAndImmediate(s: JavaState, j: bv32)
    requires Bit(j, 5)
    ensures BitwiseAnd(s, j).registers[Field3(j, 9)] == s.registers[Field3(j, 6)] & Imm5(j)
  {
  }

  lemma BitwiseAndRegister(s: JavaState, j: bv32)
    requires !Bit(j, 5)
    ensures BitwiseAnd(s, j).registers[Field3(j, 9)] == s.registers[Field3(j, 6)] & s.registers[Field3(j, 0)]
  {
  }

  lemma BitwiseAndFrame(s: JavaState, j: bv32)
    ensures OthersUnchanged(s.registers, BitwiseAnd(s, j).registers, Field3(j, 9), JCond)
  {
  }

  lemma BitwiseNotValue(s: JavaState, j: bv32)
    ensures BitwiseNot(s, j).registers[Field3(j, 9)] == !s.registers[Field3(j, 6)]
  {
  }

  lemma BitwiseNotFrame(s: JavaState, j: bv32)
    ensures OthersUnchanged(s.registers, BitwiseNot(s, j).registers, Field3(j, 9), JCond)
  {
  }

  lemma LeaValue(s: JavaState, j: bv32)
    ensures LoadEffectiveAddress(s, j).registers[Field3(j, 9)] == s.registers[JPc] + Offset9(j)
  {
  }

  lemma LeaFrame(s: JavaState, j: bv32)
    ensures OthersUnchanged(s.registers, LoadEffectiveAddress(s, j).registers, Field3(j, 9), JCond)
  {
  }

  // ---------------------------------------------------------------------
  // What each side writes, in its own terms
  // ---------------------------------------------------------------------

  lemma AddOpWritesImmediate(s: JavaState, j: bv32)
    requires Bit(j, 5)
    ensures JavaWrote(s, AddOp(s, j), Field3(j, 9), s.registers[Field3(j, 6)] + Imm5(j))
  {
    AddOpImmediate(s, j);
    AddOpFrame(s, j);
  }

  lemma AddOpWritesRegister(s: JavaState, j: bv32)
    requires !Bit(j, 5)
    ensures JavaWrote(s, AddOp(s, j), Field3(j, 9), s.registers[Field3(j, 6)] + s.registers[Field3(j, 0)])
  {
    AddOpRegister(s, j);
    AddOpFrame(s, j);
  }

  lemma AddWritesImmediate(m: Machine, f: Fields)
    requires f.immFlag
    ensures CWrote(m, Add(m, f), f.dr, m.regs[f.sr1] + f.imm5)
  {
  }

  lemma AddWritesRegister(m: Machine, f: Fields)
    requires !f.immFlag
    ensures CWrote(m, Add(m, f), f.dr, m.regs[f.sr1] + m.regs[f.sr2])
  {
  }

  lemma BitwiseAndWritesImmediate(s: JavaState, j: bv32)
    requires Bit(j, 5)
    ensures JavaWrote(s, BitwiseAnd(s, j), Field3(j, 9), s.registers[Field3(j, 6)] & Imm5(j))
  {
    BitwiseAndImmediate(s, j);
    BitwiseAndFrame(s, j);
  }

  lemma BitwiseAndWritesRegister(s: JavaState, j: bv32)
    requires !Bit(j, 5)
    ensures JavaWrote(s, BitwiseAnd(s, j), Field3(j, 9), s.registers[Field3(j, 6)] & s.registers[Field3(j, 0)])
  {
    BitwiseAndRegister(s, j);
    BitwiseAndFrame(s, j);
  }

  lemma AndWritesImmediate(m: Machine, f: Fields)
    requires f.immFlag
    ensures CWrote(m, And(m, f), f.dr, m.regs[f.sr1] & f.imm5)
  {
  }

  lemma AndWritesRegister(m: Machine, f: Fields)
    requires !f.immFlag
    ensures CWrote(m, And(m, f), f.dr, m.regs[f.sr1] & m.regs[f.sr2])
  {
  }

  lemma BitwiseNotWrites(s: JavaState, j: bv32)
    ensures JavaWrote(s, BitwiseNot(s, j), Field3(j, 9), !s.registers[Field3(j, 6)])
  {
    BitwiseNotValue(s, j);
    BitwiseNotFrame(s, j);
  }

  lemma NotWrites(m: Machine, f: Fields)
    ensures CWrote(m, Not(m, f), f.dr, !m.regs[f.sr1])
  {
    assert Not(m, f).regs[f.dr] ^ m.regs[f.sr1] == 0xFFFF;
  }

  lemma LoadEffectiveAddressWrites(s: JavaState, j: bv32)
    ensures JavaWrote(s, LoadEffectiveAddress(s, j), Field3(j, 9), s.registers[JPc] + Offset9(j))
  {
    LeaValue(s, j);
    LeaFrame(s, j);
  }

  lemma LeaWrites(m: Machine, f: Fields)
    ensures CWrote(m, Lea(m, f), f.dr, PcRelative(m, f))
  {
  }

  lemma BranchTakenPc(s: JavaState, j: bv32)
    requires Bit(j, 11) || Bit(j, 10) || Bit(j, 9)
    ensures Branch(s, j).registers[JPc] == s.registers[JPc] + Offset9(j)
  {
  }

  lemma BranchFrame(s: JavaState, j: bv32)
    ensures forall i :: 0 <= i < 8 ==> Branch(s, j).registers[i] == s.registers[i]
  {
  }

  lemma BranchTakenJumps(s: JavaState, j: bv32)
    requires Bit(j, 11) || Bit(j, 10) || Bit(j, 9)
    ensures JavaJumped(s, Branch(s, j), s.registers[JPc] + Offset9(j), false)
  {
    BranchTakenPc(s, j);
    BranchFrame(s, j);
  }

  lemma BrTakenJumps(m: Machine, f: Fields)
    requires f.n || f.z || f.p
    ensures CJumped(m, Br(m, f), m.pc + f.offset9, false)
  {
  }

  lemma JumpRegisterLinks(s: JavaState, j: bv32)
    requires Bit(j, 11)
    ensures JavaJumped(s, JumpRegister(s, j), s.registers[JPc] + Offset11(j), true)
  {
  }

  lemma JsrLinks(m: Machine, f: Fields)
    requires f.longFlag
    ensures CJumped(m, Jsr(m, f), m.pc + f.offset11, true)
  {
  }

  // ---------------------------------------------------------------------
  // Handlers
  // ---------------------------------------------------------------------

  lemma AddImmediateAgreesOn(s: JavaState, m: Machine, j: bv32, f: Fields)
    requires RegistersAgree(s, m) && RegistersNamed(j, f) && Agree(Imm5(j), f.imm5)
    requires Bit(j, 5) && f.immFlag
    ensures RegistersAgree(AddOp(s, j), Add(m, f))
  {
    AddOpWritesImmediate(s, j);
    AddWritesImmediate(m, f);
    OperandsAgree(s, m, j, f);
    SumWithImmediate(s, m, j, f);
    WriteKeepsAgreement(s, m, AddOp(s, j), Add(m, f), Field3(j, 9), f.dr,
      s.registers[Field3(j, 6)] + Imm5(j), m.regs[f.sr1] + f.imm5);
  }

  lemma AddRegisterAgreesOn(s: JavaState, m: Machine, j: bv32, f: Fields)
    requires RegistersAgree(s, m) && RegistersNamed(j, f)
    requires !Bit(j, 5) && !f.immFlag
    ensures RegistersAgree(AddOp(s, j), Add(m, f))
  {
    AddOpWritesRegister(s, j);
    AddWritesRegister(m, f);
    OperandsAgree(s, m, j, f);
    SumOfOperands(s, m, j, f);
    WriteKeepsAgreement(s, m, AddOp(s, j), Add(m, f), Field3(j, 9), f.dr,
      s.registers[Field3(j, 6)] + s.registers[Field3(j, 0)], m.regs[f.sr1] + m.regs[f.sr2]);
  }

  /** `addOp` and `add` compute the same sum modulo 2^16, from agreeing
      registers to agreeing registers. */
  lemma AddAgrees(s: JavaState, m: Machine, instr: bv16)
    requires RegistersAgree(s, m)
    ensures RegistersAgree(AddOp(s, instr as bv32), Add(m, Decode(instr)))
  {
    DecodeMatches(instr);
    if Decode(instr).immFlag {
      AddImmediateAgreesOn(s, m, instr as bv32, Decode(instr));
    } else {
      AddRegisterAgreesOn(s, m, instr as bv32, Decode(instr));
    }
  }

  lemma AndImmediateAgreesOn(s: JavaState, m: Machine, j: bv32, f: Fields)
    requires RegistersAgree(s, m) && RegistersNamed(j, f) && Agree(Imm5(j), f.imm5)
    requires Bit(j, 5) && f.immFlag
    ensures RegistersAgree(BitwiseAnd(s, j), And(m, f))
  {
    BitwiseAndWritesImmediate(s, j);
    AndWritesImmediate(m, f);
    OperandsAgree(s, m, j, f);
    ConjunctionWithImmediate(s, m, j, f);
    WriteKeepsAgreement(s, m, BitwiseAnd(s, j), And(m, f), Field3(j, 9), f.dr,
      s.registers[Field3(j, 6)] & Imm5(j), m.regs[f.sr1] & f.imm5);
  }

  lemma AndRegisterAgreesOn(s: JavaState, m: Machine, j: bv32, f: Fields)
    requires RegistersAgree(s, m) && RegistersNamed(j, f)
    requires !Bit(j, 5) && !f.immFlag
    ensures RegistersAgree(BitwiseAnd(s, j), And(m, f))
  {
    BitwiseAndWritesRegister(s, j);
    AndWritesRegister(m, f);
    OperandsAgree(s, m, j, f);
    ConjunctionOfOperands(s, m, j, f);
    WriteKeepsAgreement(s, m, BitwiseAnd(s, j), And(m, f), Field3(j, 9), f.dr,
      s.registers[Field3(j, 6)] & s.registers[Field3(j, 0)], m.regs[f.sr1] & m.regs[f.sr2]);
  }

  /** `bitwiseAnd` and `and` compute the same conjunction modulo 2^16. */
  lemma AndAgrees(s: JavaState, m: Machine, instr: bv16)
    requires RegistersAgree(s, m)
    ensures RegistersAgree(BitwiseAnd(s, instr as bv32), And(m, Decode(instr)))
  {
    DecodeMatches(instr);
    if Decode(instr).immFlag {
      AndImmediateAgreesOn(s, m, instr as bv32, Decode(instr));
    } else {
      AndRegisterAgreesOn(s, m, instr as bv32, Decode(instr));
    }
  }

  lemma NotAgreesOn(s: JavaState, m: Machine, j: bv32, f: Fields)
    requires RegistersAgree(s, m) && RegistersNamed(j, f)
    ensures RegistersAgree(BitwiseNot(s, j), Not(m, f))
  {
    BitwiseNotWrites(s, j);
    NotWrites(m, f);
    OperandsAgree(s, m, j, f);
    ComplementOfOperand(s, m, j, f);
    WriteKeepsAgreement(s, m, BitwiseNot(s, j), Not(m, f), Field3(j, 9), f.dr,
      !s.registers[Field3(j, 6)], !m.regs[f.sr1]);
  }

  /** `bitwiseNot` and `not` complement alike in the low 16 bits. */
  lemma NotAgrees(s: JavaState, m: Machine, instr: bv16)
    requires RegistersAgree(s, m)
    ensures RegistersAgree(BitwiseNot(s, instr as bv32), Not(m, Decode(instr)))
  {
    DecodeMatches(instr);
    NotAgreesOn(s, m, instr as bv32, Decode(instr));
  }

  lemma LeaAgreesOn(s: JavaState, m: Machine, j: bv32, f: Fields)
    requires RegistersAgree(s, m) && RegistersNamed(j, f) && Agree(Offset9(j), f.offset9)
    ensures RegistersAgree(LoadEffectiveAddress(s, j), Lea(m, f))
  {
    LoadEffectiveAddressWrites(s, j);
    LeaWrites(m, f);
    LeaAddressAgrees(s, m, j, f);
    LeaKeepsAgreement(s, m, LoadEffectiveAddress(s, j), Lea(m, f), j, f);
  }

  /** `loadEffectiveAddress` and `lea` compute the same address. */
  lemma LeaAgrees(s: JavaState, m: Machine, instr: bv16)
    requires RegistersAgree(s, m)
    ensures RegistersAgree(LoadEffectiveAddress(s, instr as bv32), Lea(m, Decode(instr)))
  {
    DecodeMatches(instr);
    LeaAgreesOn(s, m, instr as bv32, Decode(instr));
  }

  lemma BranchTakenAgreesOn(s: JavaState, m: Machine, j: bv32, f: Fields)
    requires RegistersAgree(s, m) && Agree(Offset9(j), f.offset9)
    requires (Bit(j, 11) || Bit(j, 10) || Bit(j, 9)) && (f.n || f.z || f.p)
    ensures RegistersAgree(Branch(s, j), Br(m, f))
  {
    BranchTakenJumps(s, j);
    BrTakenJumps(m, f);
    BranchTargetAgrees(s, m, j, f);
    BranchKeepsAgreement(s, m, Branch(s, j), Br(m, f), j, f);
  }

  lemma BranchNotTakenAgreesOn(s: JavaState, m: Machine, j: bv32, f: Fields)
    requires RegistersAgree(s, m)
    requires !(Bit(j, 11) || Bit(j, 10) || Bit(j, 9)) && !(f.n || f.z || f.p)
    ensures RegistersAgree(Branch(s, j), Br(m, f))
  {
  }

  /** `branch` and `br` take the same branches to the same target. */
  lemma BranchAgrees(s: JavaState, m: Machine, instr: bv16)
    requires RegistersAgree(s, m)
    ensures RegistersAgree(Branch(s, instr as bv32), Br(m, Decode(instr)))
  {
    DecodeMatches(instr);
    var f := Decode(instr);
    if f.n || f.z || f.p {
      BranchTakenAgreesOn(s, m, instr as bv32, f);
    } else {
      BranchNotTakenAgreesOn(s, m, instr as bv32, f);
    }
  }

  lemma JsrAgreesOn(s: JavaState, m: Machine, j: bv32, f: Fields)
    requires RegistersAgree(s, m) && Agree(Offset11(j), f.offset11)
    requires Bit(j, 11) && f.longFlag
    ensures RegistersAgree(JumpRegister(s, j), Jsr(m, f))
  {
    JumpRegisterLinks(s, j);
    JsrLinks(m, f);
    JsrTargetAgrees(s, m, j, f);
    JsrKeepsAgreement(s, m, JumpRegister(s, j), Jsr(m, f), j, f);
  }

  /** With bit 11 set, `jumpRegister` and `jsr` link R7 and jump to the same
      PC-relative target. */
  lemma JsrAgrees(s: JavaState, m: Machine, instr: bv16)
    requires RegistersAgree(s, m)
    requires (instr >> 11) & 1 == 1
    ensures RegistersAgree(JumpRegister(s, instr as bv32), Jsr(m, Decode(instr)))
  {
    DecodeMatches(instr);
    JsrAgreesOn(s, m, instr as bv32, Decode(instr));
  }

  /** With bit 11 clear they part ways: `jumpRegister` jumps to the number
      of the base register, `jsr` to its contents. JSRR R2 (0x4080) with 5
      in R2 sends the Java PC to 2 and the C PC to 5. */
  lemma JsrrDisagrees(s: JavaState, m: Machine)
    requires RegistersAgree(s, m) && m.regs[2] == 5
    ensures JumpRegister(s, 0x4080).registers[JPc] == 2
    ensures Jsr(m, Decode(0x4080)).pc == 5
  {
    RegisterFieldsAgree(0x4080);
  }
}
