/** Where the Java twin and the C emulator agree. Java computes on 32-bit
    `int`s and never truncates, so agreement is modulo 2^16: the low half of
    every Java register holds the C register's word. */
module JavaAgreement {
  import opened Wrappers
  import opened Lc3Defs
  import opened Lc3Machine
  import opened Lc3Ops
  import opened JavaVm

  /** The Java `int` `j` and the C word `c` agree modulo 2^16. */
  predicate Agree(j: bv32, c: bv16) {
    j & 0xFFFF == c as bv32
  }

  /** The Java registers R0..R7 and PC hold the C machine's, modulo 2^16. */
  predicate RegistersAgree(s: JavaState, m: Machine) {
    && (forall i :: 0 <= i < 8 ==> Agree(s.registers[i], m.regs[i]))
    && Agree(s.registers[JPc], m.pc)
  }

  // ---------------------------------------------------------------------
  // Primitives
  // ---------------------------------------------------------------------

  /** On an n-bit field the two `signExtend`s agree in the low 16 bits; with
      the sign bit clear both return the field itself. Stated for the four
      widths the handlers use. */
  lemma SignExtendAgrees(x: bv16, bitCount: bv16)
    requires bitCount == 5 || bitCount == 6 || bitCount == 9 || bitCount == 11
    requires x < 1 << bitCount
    ensures Agree(JSignExtend(x as bv32, bitCount as bv32), SignExtend(x, bitCount))
    ensures x < 1 << (bitCount - 1) ==> JSignExtend(x as bv32, bitCount as bv32) == SignExtend(x, bitCount) as bv32
  {
    if bitCount == 5 {
      SignExtendAgrees5(x);
    } else if bitCount == 6 {
      SignExtendAgrees6(x);
    } else if bitCount == 9 {
      SignExtendAgrees9(x);
    } else {
      SignExtendAgrees11(x);
    }
  }

  /** ORing the sixteen-bit pattern into a Java int and its 16-bit image
      into the C word keeps them in agreement. */
  lemma AgreeWidened(x: bv16, javaHigh: bv32, cHigh: bv16)
    requires javaHigh & 0xFFFF == cHigh as bv32
    ensures Agree(x as bv32 | javaHigh, x | cHigh)
  {
  }

  /** Both `signExtend`s at width 5, written out: the field, with the
      sixteen bits above it set when bit 4 is. */
  lemma SignExtendForms5(x: bv16)
    requires x < 0x20
    ensures JSignExtend(x as bv32, 5) == if x & 0x10 != 0 then x as bv32 | 0x1F_FFE0 else x as bv32
    ensures SignExtend(x, 5) == if x & 0x10 != 0 then x | 0xFFE0 else x
  {
  }

  lemma SignExtendAgrees5(x: bv16)
    requires x < 0x20
    ensures Agree(JSignExtend(x as bv32, 5), SignExtend(x, 5))
    ensures x < 0x10 ==> JSignExtend(x as bv32, 5) == SignExtend(x, 5) as bv32
  {
    SignExtendForms5(x);
    if x & 0x10 != 0 {
      AgreeWidened(x, 0x1F_FFE0, 0xFFE0);
    }
  }

  /** Both `signExtend`s at width 6, written out: the field, with the
      sixteen bits above it set when bit 5 is. */
  lemma SignExtendForms6(x: bv16)
    requires x < 0x40
    ensures JSignExtend(x as bv32, 6) == if x & 0x20 != 0 then x as bv32 | 0x3F_FFC0 else x as bv32
    ensures SignExtend(x, 6) == if x & 0x20 != 0 then x | 0xFFC0 else x
  {
  }

  lemma SignExtendAgrees6(x: bv16)
    requires x < 0x40
    ensures Agree(JSignExtend(x as bv32, 6), SignExtend(x, 6))
    ensures x < 0x20 ==> JSignExtend(x as bv32, 6) == SignExtend(x, 6) as bv32
  {
    SignExtendForms6(x);
    if x & 0x20 != 0 {
      AgreeWidened(x, 0x3F_FFC0, 0xFFC0);
    }
  }

  /** Both `signExtend`s at width 9, written out: the field, with the
      sixteen bits above it set when bit 8 is. */
  lemma SignExtendForms9(x: bv16)
    requires x < 0x200
    ensures JSignExtend(x as bv32, 9) == if x & 0x100 != 0 then x as bv32 | 0x1FF_FE00 else x as bv32
    ensures SignExtend(x, 9) == if x & 0x100 != 0 then x | 0xFE00 else x
  {
  }

  lemma SignExtendAgrees9(x: bv16)
    requires x < 0x200
    ensures Agree(JSignExtend(x as bv32, 9), SignExtend(x, 9))
    ensures x < 0x100 ==> JSignExtend(x as bv32, 9) == SignExtend(x, 9) as bv32
  {
    SignExtendForms9(x);
    if x & 0x100 != 0 {
      AgreeWidened(x, 0x1FF_FE00, 0xFE00);
    }
  }

  /** Both `signExtend`s at width 11, written out: the field, with the
      sixteen bits above it set when bit 10 is. */
  lemma SignExtendForms11(x: bv16)
    requires x < 0x800
    ensures JSignExtend(x as bv32, 11) == if x & 0x400 != 0 then x as bv32 | 0x7FF_F800 else x as bv32
    ensures SignExtend(x, 11) == if x & 0x400 != 0 then x | 0xF800 else x
  {
  }

  lemma SignExtendAgrees11(x: bv16)
    requires x < 0x800
    ensures Agree(JSignExtend(x as bv32, 11), SignExtend(x, 11))
    ensures x < 0x400 ==> JSignExtend(x as bv32, 11) == SignExtend(x, 11) as bv32
  {
    SignExtendForms11(x);
    if x & 0x400 != 0 {
      AgreeWidened(x, 0x7FF_F800, 0xF800);
    }
  }

  /** For a 16-bit value both `updateFlags` pick the same condition code. */
  lemma FlagsAgree(v: bv32)
    requires v < 0x1_0000
    ensures JFlagCode(v) == CondCode(FlagOf(v as bv16)) as bv32
  {
  }

  /** A value wider than 16 bits can carry a C word of zero or a negative
      C word and still be flagged positive: 0x10000 and 0x18000. */
  lemma FlagsDisagreeOnWideValues()
    ensures Agree(0x1_0000, 0) && JFlagCode(0x1_0000) == JFlPos && FlagOf(0) == Zero
    ensures Agree(0x1_8000, 0x8000) && JFlagCode(0x1_8000) == JFlPos && FlagOf(0x8000) == Neg
  {
  }

  /** Both programs extract the same register fields and mode bits from a
      16-bit instruction word. */
  lemma RegisterFieldsAgree(instr: bv16)
    ensures Field3(instr as bv32, 9) == Decode(instr).dr
    ensures Field3(instr as bv32, 6) == Decode(instr).sr1
    ensures Field3(instr as bv32, 0) == Decode(instr).sr2
    ensures Bit(instr as bv32, 5) == Decode(instr).immFlag
    ensures Bit(instr as bv32, 11) == Decode(instr).longFlag
  {
    DrAgrees(instr);
    Sr1Agrees(instr);
    Sr2Agrees(instr);
  }

  lemma DrAgrees(instr: bv16)
    ensures Field3(instr as bv32, 9) == Decode(instr).dr
  {
    RegOfAgrees((instr >> 9) & 0x7);
    assert JavaShr(instr as bv32, 9) & 0x7 == ((instr >> 9) & 0x7) as bv32;
  }

  lemma Sr1Agrees(instr: bv16)
    ensures Field3(instr as bv32, 6) == Decode(instr).sr1
  {
    RegOfAgrees((instr >> 6) & 0x7);
    assert JavaShr(instr as bv32, 6) & 0x7 == ((instr >> 6) & 0x7) as bv32;
  }

  lemma Sr2Agrees(instr: bv16)
    ensures Field3(instr as bv32, 0) == Decode(instr).sr2
  {
    RegOfAgrees(instr & 0x7);
    assert JavaShr(instr as bv32, 0) & 0x7 == (instr & 0x7) as bv32;
  }

  /** The two case splits from a 3-bit field to a register index agree. */
  lemma RegOfAgrees(b: bv16)
    requires b < 8
    ensures JRegOf(b as bv32) == RegOf(b)
  {
  }

  /** ... and the same offsets, modulo 2^16. */
  lemma OffsetsAgree(instr: bv16)
    ensures Agree(Imm5(instr as bv32), Decode(instr).imm5)
    ensures Agree(Offset6(instr as bv32), Decode(instr).offset6)
    ensures Agree(Offset9(instr as bv32), Decode(instr).offset9)
    ensures Agree(Offset11(instr as bv32), Decode(instr).offset11)
  {
    Imm5Agrees(instr);
    Offset6Agrees(instr);
    Offset9Agrees(instr);
    Offset11Agrees(instr);
  }

  lemma Imm5Agrees(instr: bv16)
    ensures Agree(Imm5(instr as bv32), Decode(instr).imm5)
  {
    SignExtendAgrees5(instr & 0x1F);
    assert (instr as bv32) & 0x1F == (instr & 0x1F) as bv32;
  }

  lemma Offset6Agrees(instr: bv16)
    ensures Agree(Offset6(instr as bv32), Decode(instr).offset6)
  {
    SignExtendAgrees6(instr & 0x3F);
    assert (instr as bv32) & 0x3F == (instr & 0x3F) as bv32;
  }

  lemma Offset9Agrees(instr: bv16)
    ensures Agree(Offset9(instr as bv32), Decode(instr).offset9)
  {
    SignExtendAgrees9(instr & 0x1FF);
    assert (instr as bv32) & 0x1FF == (instr & 0x1FF) as bv32;
  }

  lemma Offset11Agrees(instr: bv16)
    ensures Agree(Offset11(instr as bv32), Decode(instr).offset11)
  {
    SignExtendAgrees11(instr & 0x7FF);
    assert (instr as bv32) & 0x7FF == (instr & 0x7FF) as bv32;
  }

  // ---------------------------------------------------------------------
  // Arithmetic modulo 2^16
  // ---------------------------------------------------------------------

  /** The low 16 bits of a 32-bit sum depend only on the low 16 bits of
      the addends. */
  lemma LowHalfOfSum(a: bv32, b: bv32)
    ensures (a + b) & 0xFFFF == ((a & 0xFFFF) + (b & 0xFFFF)) & 0xFFFF
  {
  }

  /** A 16-bit sum, widened, is the 32-bit sum of the widened addends cut
      back to 16 bits. */
  lemma WidenedSum(c: bv16, d: bv16)
    ensures (c + d) as bv32 == (c as bv32 + d as bv32) & 0xFFFF
  {
  }

  lemma AgreeAdd(a: bv32, b: bv32, c: bv16, d: bv16)
    requires Agree(a, c) && Agree(b, d)
    ensures Agree(a + b, c + d)
  {
    calc {
      (a + b) & 0xFFFF;
    == { LowHalfOfSum(a, b); }
      ((a & 0xFFFF) + (b & 0xFFFF)) & 0xFFFF;
    ==
      (c as bv32 + d as bv32) & 0xFFFF;
    == { WidenedSum(c, d); }
      (c + d) as bv32;
    }
  }

  lemma AgreeAnd(a: bv32, b: bv32, c: bv16, d: bv16)
    requires Agree(a, c) && Agree(b, d)
    ensures Agree(a & b, c & d)
  {
  }

  lemma AgreeNot(a: bv32, c: bv16)
    requires Agree(a, c)
    ensures Agree(!a, !c)
  {
  }

  // ---------------------------------------------------------------------
  // Register writes and jumps on both sides
  // ---------------------------------------------------------------------

  /** Java went from `s` to `s'` by writing `v` to register `d`; no other
      register of R0..R7, and not PC, changed. */
  predicate JavaWrote(s: JavaState, s': JavaState, d: RegIndex, v: bv32) {
    s'.registers[d] == v && OthersUnchanged(s.registers, s'.registers, d, JCond)
  }

  /** C went from `m` to `m'` by writing `w` to register `d`; no other
      register, and not PC, changed. */
  predicate CWrote(m: Machine, m': Machine, d: RegIndex, w: bv16) {
    m'.regs[d] == w && RegsAgreeExcept(m.regs, m'.regs, d) && m'.pc == m.pc
  }

  /** Java moved PC to `v`, and wrote R7 with the old PC when `link` holds;
      no other register of R0..R7 changed. */
  predicate JavaJumped(s: JavaState, s': JavaState, v: bv32, link: bool) {
    && s'.registers[JPc] == v
    && (link ==> s'.registers[JR7] == s.registers[JPc])
    && forall i :: 0 <= i < 8 && !(link && i == JR7) ==> s'.registers[i] == s.registers[i]
  }

  /** C moved PC to `w`, and wrote R7 with the old PC when `link` holds; no
      other register changed. */
  predicate CJumped(m: Machine, m': Machine, w: bv16, link: bool) {
    && m'.pc == w
    && (link ==> m'.regs[RegR7] == m.pc)
    && forall i :: 0 <= i < 8 && !(link && i == RegR7) ==> m'.regs[i] == m.regs[i]
  }

  /** Writing agreeing values to the same register, `d` on the Java side
      and `e` on the C side, keeps the registers in agreement. */
  lemma WriteKeepsAgreement(s: JavaState, m: Machine, s': JavaState, m': Machine, d: RegIndex, e: RegIndex, v: bv32, w: bv16)
    requires RegistersAgree(s, m) && Agree(v, w) && d == e
    requires JavaWrote(s, s', d, v) && CWrote(m, m', e, w)
    ensures RegistersAgree(s', m')
  {
  }

  /** Moving PC to agreeing targets, and linking, keeps the registers in
      agreement. */
  lemma JumpKeepsAgreement(s: JavaState, m: Machine, s': JavaState, m': Machine, v: bv32, w: bv16, link: bool)
    requires RegistersAgree(s, m) && Agree(v, w)
    requires JavaJumped(s, s', v, link) && CJumped(m, m', w, link)
    ensures RegistersAgree(s', m')
  {
  }
}
