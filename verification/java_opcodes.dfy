/** The opcode constants of the Java twin (`InstructionSet`), as Java `int`s,
    and their relation to the C header's opcode enum. */
module JavaOpcodes {
  import opened Lc3Defs

  const OpBr: int := 0
  const OpAdd: int := 1
  const OpLd: int := 2
  const OpSt: int := 3
  const OpJsr: int := 4
  const OpAnd: int := 5
  const OpLdr: int := 6
  const OpStr: int := 7
  const OpRti: int := 8
  const OpNot: int := 9
  const OpLdi: int := 10
  const OpSti: int := 11
  const OpJmp: int := 12
  const OpRes: int := 13
  const OpLea: int := 14
  const OpTrap: int := 15

  /** The constants in declaration order. */
  const JavaOpcodeList: seq<int> :=
    [OpBr, OpAdd, OpLd, OpSt, OpJsr, OpAnd, OpLdr, OpStr,
     OpRti, OpNot, OpLdi, OpSti, OpJmp, OpRes, OpLea, OpTrap]

  /** The Java constant named after each opcode. */
  function JavaOpcode(op: Opcode): int {
    match op
    case BR => OpBr
    case ADD => OpAdd
    case LD => OpLd
    case ST => OpSt
    case JSR => OpJsr
    case AND => OpAnd
    case LDR => OpLdr
    case STR => OpStr
    case RTI => OpRti
    case NOT => OpNot
    case LDI => OpLdi
    case STI => OpSti
    case JMP => OpJmp
    case RES => OpRes
    case LEA => OpLea
    case TRAP => OpTrap
  }

  /** The sixteen constants are pairwise distinct and are exactly 0..15. */
  lemma JavaOpcodesCoverNibbles()
    ensures |JavaOpcodeList| == 16
    ensures forall i, j :: 0 <= i < j < 16 ==> JavaOpcodeList[i] != JavaOpcodeList[j]
    ensures forall k :: 0 <= k < 16 <==> k in JavaOpcodeList
  {
    assert forall i :: 0 <= i < 16 ==> JavaOpcodeList[i] == i;
  }

  /** Each Java constant carries the number the C enum gives the same
      opcode, so the two programs decode the top nibble alike. */
  lemma JavaOpcodesMatchEnum(op: Opcode)
    ensures JavaOpcode(op) == OpcodeNumber(op) as int
    ensures JavaOpcodeList[JavaOpcode(op)] == JavaOpcode(op)
  {
  }

  /** RTI and RES are the two opcodes neither program gives a meaning; ADD and
      LDI carry the nibbles 0001 and 1010 drawn in the layout comments. */
  lemma JavaUnimplementedAndDocumentedOpcodes()
    ensures OpRti == 8 && OpRes == 13
    ensures OpcodeOf(0x8000) == RTI && OpcodeOf(0xD000) == RES
    ensures OpAdd == 0x1 && OpLdi == 0xA
    ensures JavaOpcode(OpcodeOf(0x1000)) == OpAdd && JavaOpcode(OpcodeOf(0xA000)) == OpLdi
  {
  }
}
