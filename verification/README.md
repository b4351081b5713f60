# LC-3 emulator and ELF header decoder in Dafny

This project models three pieces of a small virtual-machine repository.

- **The C LC-3 emulator** (`lc3_vm_c/vm.c`, `vm.h`). The machine holds:
  - 65535 words of memory;
  - registers R0–R7, PC and COND;
  - a `running` flag;
  - the console as an input byte sequence and an output byte sequence.

  Each handler is a pure function of the machine and the decoded instruction
  word. The fetch/execute cycle is `Step`, the `while (running)` loop is
  `Run` with a fuel bound, and the image loader places big-endian words at a
  big-endian origin. The one memory access C leaves undefined, the cell
  0xFFFF past the end of `memory[UINT16_MAX]`, is an explicit `NoCell`
  fault.
- **The Java twin** (`vm_java/src/Main.java`, `InstructionSet.java`). Its
  handlers are modelled on 32-bit `int`s (`bv32`), with Java's arithmetic
  `>>` and array-bounds exceptions. For ADD, AND, NOT, LEA, BR and JSR (bit 11
  set), agreement lemmas prove that the Java and C handlers leave the
  registers equal modulo 2^16. For LD, LDI and ST they prove the same of
  registers and memory wherever both programs reach an ordinary cell.
  Lemmas and comments name the places where the two part ways.
- **The ELF header decoder** (`c_vm_c/elf.c`, `elf.h`).
  `ParseElfHeaderAsWritten` models `parseElfHeader` as written, including
  its magic check, which lets some non-ELF buffers through (see Findings).
  `ParseElfHeader` is the corrected parser: a total function from the
  64-byte header buffer to `Ok(ElfInfo)`, or to the error for the
  `exit(-1)` the C code takes with a correct magic check. An independent encoder,
  `EncodeElfHeader`, writes an `ElfInfo` back. Decoding an encoded header
  returns the same `ElfInfo` (`ParseEncodeRoundTrip`).

Modules follow the source: `Lc3Defs` (vm.h), `Lc3Machine`, `Lc3Ops`,
`Lc3Traps`, `Lc3Loader` and `Lc3Step` (vm.c), `JavaOpcodes`, `JavaVm`,
`JavaAgreement`, `JavaHandlerAgreement` and `JavaMemoryAgreement` (the Java
twin), and `ElfLayout`
(elf.h) and `ElfParser` (elf.c). `Bytes` holds the byte helpers the loader
and the ELF decoder share. `Wrappers` holds the `Result` type.

Where the program departs from the LC-3 ISA (Patt and Patel, *Introduction
to Computing Systems*, Appendix A) or from the System V gABI (chapter 4,
"ELF Identification" and "ELF Header"), the model follows the program and
says so in a comment. The list is below.

- RTI and RES have no case in the switch, so they do nothing. The ISA
  raises an exception for them.
- BR is taken when any of the n, z, p bits is set. COND is never consulted.
- AND and LDI leave COND as it was.
- JMP reads `R[instr >> 13]`, which is R6 for every JMP word.
- TRAP does not save R7.
- IN echoes the character but does not store it in R0.
- An unknown trap vector does nothing.
- Memory has 65535 cells, not 65536.
- The ELF decoder reads the multi-byte fields big-endian (addresses, offsets,
  flags, type and machine) or little-endian (the 16-bit sizes and counts)
  whatever the header's data-encoding byte says. That byte is only checked
  to be 1 or 2.

## Model

| member | source | states |
|---|---|---|
| `Lc3Defs.DeviceAddresses` | lc3_vm_c/vm.h:15-22 | KBSR, KBDR, DSR and DDR are four distinct addresses, all in page 0xFE; STATUS_BIT is bit 15 and nothing else |
| `Lc3Defs.TrapVectorsReachable` | lc3_vm_c/vm.h:24-31 | the six trap vectors are 0x20..0x25, pairwise distinct and below 0x100, so each is recovered by `instruction & 0xFF` from a TRAP word |
| `Lc3Defs.CondCode` | lc3_vm_c/vm.h:33-37 | the COND value of each condition is one of the three codes 0, 1, 2 |
| `Lc3Defs.CondCodesDistinct` | lc3_vm_c/vm.h:33-37 | different conditions get different codes, and a zeroed COND register reads as POS |
| `Lc3Defs.RegisterFieldNamesGpr` | lc3_vm_c/vm.h:39-51 | a 3-bit register field taken from any position of a word names R0..R7, never PC (8) or COND (9) |
| `Lc3Defs.OpcodeOf` | lc3_vm_c/vm.c:104 | the opcode chosen for a word is the one whose enum number is the word's top four bits |
| `Lc3Defs.OpcodeNumbering` | lc3_vm_c/vm.h:53-70 | the enum numbers the sixteen opcodes 0..15 without repeats, and decoding an opcode's number gives back that opcode |
| `Lc3Machine.SignExtend` | lc3_vm_c/vm.c:4-9 | an n-bit field with bit n-1 clear is returned unchanged; otherwise the result is x - 2^n modulo 2^16, so the sign bit of the result is the field's top bit |
| `Lc3Machine.SignExtendIdempotent` | lc3_vm_c/vm.c:4-9 | extending an already extended value again at the same width changes nothing |
| `Lc3Machine.Decode` | lc3_vm_c/vm.c:177-286 | DR is bits 11..9, SR1/BaseR bits 8..6, SR2 bits 2..0 and the JMP register `(instr >> 6) >> 7`, i.e. bits 15..13; the n, z, p flags are bits 11, 10, 9; the mode bits, trap vector and the 5/6/9/11-bit offsets, each offset sign-extended as the emulator does |
| `Lc3Machine.FlagOf` | lc3_vm_c/vm.c:153-161 | exactly one condition holds: ZERO if and only if the value is 0, NEG if and only if bit 15 is set, POS otherwise |
| `Lc3Machine.UpdateFlags` | lc3_vm_c/vm.c:153-161 | COND becomes the condition of the named register's value; nothing else changes |
| `Lc3Machine.GetcharWord` | lc3_vm_c/vm.c:326-328 | `(uint16_t) getchar()` is 0xFFFF exactly at end of input, and otherwise the next byte, below 0x100 |
| `Lc3Machine.Consume` | lc3_vm_c/vm.c:61 | `getchar` removes exactly the first byte of the input, or nothing at end of input |
| `Lc3Machine.MemoryRead` | lc3_vm_c/vm.c:48-72 | faults exactly at 0xFFFF; a plain address reads its cell; KBSR reads STATUS_BIT when a key is ready and 0 otherwise; DSR always reads STATUS_BIT; only a KBDR read with a key ready consumes input |
| `Lc3Machine.MemoryWrite` | lc3_vm_c/vm.c:74-76 | faults exactly at 0xFFFF; otherwise the addressed cell holds the value, every other cell and every register is unchanged, and device addresses are stored like any other |
| `Lc3Machine.SetReg` | lc3_vm_c/vm.c:184 | the register holds the new value and the others are unchanged |
| `Lc3Ops.WriteReg` | lc3_vm_c/vm.c:189 | the destination holds the value, the other registers are unchanged, and COND is updated exactly when the handler calls `updateFlags` |
| `Lc3Ops.Add` | lc3_vm_c/vm.c:177-190 | DR = SR1 + imm5 (bit 5 set) or SR1 + SR2 modulo 2^16; COND from DR; only DR and COND change |
| `Lc3Ops.And` | lc3_vm_c/vm.c:241-251 | DR = SR1 & imm5 or SR1 & SR2; COND is left as it was; only DR changes |
| `Lc3Ops.Not` | lc3_vm_c/vm.c:253-258 | DR is the bitwise complement of SR; COND from DR; only DR and COND change |
| `Lc3Ops.Lea` | lc3_vm_c/vm.c:234-239 | DR = PC + offset9, with no memory access; COND from DR |
| `Lc3Ops.Ld` | lc3_vm_c/vm.c:193-198 | faults exactly when PC + offset9 is 0xFFFF; from a plain cell DR gets that cell; COND from DR; memory, PC and output unchanged |
| `Lc3Ops.Ldi` | lc3_vm_c/vm.c:200-204 | faults at the missing cell when PC + offset9 is 0xFFFF; through plain cells DR = memory[memory[PC + offset9]]; past a plain first cell, faults exactly when the indirect address is 0xFFFF; COND untouched |
| `Lc3Ops.Ldr` | lc3_vm_c/vm.c:206-212 | faults exactly when BaseR + offset6 is 0xFFFF; from a plain cell DR gets that cell; COND from DR |
| `Lc3Ops.St` | lc3_vm_c/vm.c:214-218 | faults exactly when PC + offset9 is 0xFFFF; otherwise exactly that cell becomes SR and nothing else changes |
| `Lc3Ops.Sti` | lc3_vm_c/vm.c:220-224 | faults at the missing cell when PC + offset9 is 0xFFFF; through a plain indirect cell, faults exactly when the address it holds is 0xFFFF, and otherwise exactly the pointed-to cell becomes SR |
| `Lc3Ops.StrThenLdr` | lc3_vm_c/vm.c:206-232 | after STR to a plain cell, an LDR that reaches the same cell loads the stored register's word |
| `Lc3Ops.StiThenLdi` | lc3_vm_c/vm.c:200-224 | after STI through a plain indirect cell to another plain cell, an LDI through the same indirect cell loads the stored register's word |
| `Lc3Ops.Str` | lc3_vm_c/vm.c:227-232 | faults exactly when BaseR + offset6 is 0xFFFF; otherwise exactly that cell becomes SR and nothing else changes |
| `Lc3Ops.Br` | lc3_vm_c/vm.c:260-269 | with n = z = p = 0 nothing changes; otherwise PC += offset9, whatever COND holds |
| `Lc3Ops.Jmp` | lc3_vm_c/vm.c:271-274 | only PC changes, to the register bits 15..13 name |
| `Lc3Ops.Jsr` | lc3_vm_c/vm.c:276-286 | R7 receives the incremented PC; PC then becomes PC + offset11 (bit 11 set) or BaseR, and BaseR = R7 reads the new R7; nothing else changes |
| `Lc3Traps.LowBytes` | lc3_vm_c/vm.c:320 | one character per word, each the word's low byte, as `(char) *ptr` gives |
| `Lc3Traps.PackedChars` | lc3_vm_c/vm.c:346-349 | a word writes its low byte, then its high byte exactly when that byte is nonzero |
| `Lc3Traps.PackedBytesAppend` | lc3_vm_c/vm.c:345-351 | the output of PUTSP over two runs of words is the output of each run in turn |
| `Lc3Traps.StringEndUnique` | lc3_vm_c/vm.c:319 | a string starting at a cell has at most one terminating zero word |
| `Lc3Traps.StringEnd` | lc3_vm_c/vm.c:319-321 | the walk `while (*ptr) ptr++` stops at the string's terminating zero word, or faults when no zero word lies before the missing cell 0xFFFF |
| `Lc3Traps.Getc` | lc3_vm_c/vm.c:326-328 | R0 gets the next input byte and the byte is consumed; at end of input R0 = 0xFFFF; nothing else changes |
| `Lc3Traps.Out` | lc3_vm_c/vm.c:330-333 | exactly the low byte of R0 is appended to the output |
| `Lc3Traps.In` | lc3_vm_c/vm.c:335-340 | one byte is consumed and echoed (0xFF, the `char` of EOF, at end of input); R0 and all other state unchanged |
| `Lc3Traps.Puts` | lc3_vm_c/vm.c:317-324 | the output grows by the low bytes of the words from R0's cell up to the first zero word; a run without a zero word faults; nothing but the output changes |
| `Lc3Traps.Putsp` | lc3_vm_c/vm.c:342-353 | as PUTS, with each word writing its low byte and then its high byte when nonzero |
| `Lc3Traps.Halt` | lc3_vm_c/vm.c:355-359 | `running` is cleared and nothing else changes |
| `Lc3Traps.Trap` | lc3_vm_c/vm.c:288-309 | each of the six vectors selects its routine; any other vector does nothing; R7, PC, COND and memory are never changed |
| `Lc3Loader.Origin` | lc3_vm_c/vm.c:84-86 | the origin is the big-endian word of the first two image bytes, read little-endian and swapped |
| `Lc3Loader.DataWord` | lc3_vm_c/vm.c:90-93 | data word i is the big-endian word of image bytes 2+2i and 3+2i |
| `Lc3Loader.WordsLoaded` | lc3_vm_c/vm.c:88-90 | at most 65535 - origin words are loaded: every whole word when they fit, and otherwise exactly enough to reach the last cell |
| `Lc3Loader.LoadImage` | lc3_vm_c/vm.c:78-96 | loading fails exactly for an image shorter than the two-byte origin (the loaded cells are stated by the two lemmas below) |
| `Lc3Loader.LoadImagePlacesWords` | lc3_vm_c/vm.c:88-94 | cell origin + i holds the big-endian word at image bytes 2+2i, 3+2i for every loaded i |
| `Lc3Loader.LoadImageKeepsOtherCells` | lc3_vm_c/vm.c:88-94 | every cell outside the loaded range keeps its previous contents (C differs for the cell after an odd trailing byte: see Left out) |
| `Lc3Loader.ReadImageFile` | lc3_vm_c/vm.c:78-96 | the copy-then-swap-in-place loop computes exactly the loaded memory |
| `Lc3Step.Execute` | lc3_vm_c/vm.c:104-147 | RTI and RES words do nothing, and every fault is an access to cell 0xFFFF |
| `Lc3Step.OnlyTrapHaltsOrWrites` | lc3_vm_c/vm.c:105-147 | no instruction but TRAP clears `running` or writes output |
| `Lc3Step.OnlyStoresWriteMemory` | lc3_vm_c/vm.c:105-147 | no instruction but ST, STI and STR changes memory |
| `Lc3Step.Step` | lc3_vm_c/vm.c:103 | a cycle fetches the word at PC and executes it with PC already incremented; a PC of 0xFFFF faults |
| `Lc3Step.Cycles` | lc3_vm_c/vm.c:102-148 | a stopped machine, or no fuel, leaves the machine as it is |
| `Lc3Step.CyclesAdditive` | lc3_vm_c/vm.c:102-148 | a cycles, then b more, is a + b cycles |
| `Lc3Step.Run` | lc3_vm_c/vm.c:102-148 | the loop stops when `running` is clear and otherwise steps and continues, passing on the first fault |
| `Lc3Step.RunStaysHalted` | lc3_vm_c/vm.c:102 | once a run has stopped, more fuel changes nothing |
| `Lc3Step.Boot` | lc3_vm_c/vm.c:98-101 | the run starts at PC = 0x3000 with `running` set, zero registers, COND = POS (code 0) and empty output |
| `Lc3Step.Emulate` | lc3_vm_c/vm.c:98-151 | a short image fails to load; otherwise the emulation succeeds exactly when running the booted, loaded machine does, ends in the machine that run ends in, and fails with that run's fault |
| `Lc3Step.AddImmediateExample` | lc3_vm_c/vm.c:177-190 | ADD R1, R2, #-1 with R2 = 5 leaves 4 and COND positive |
| `Lc3Step.AndRegisterExample` | lc3_vm_c/vm.c:241-251 | AND R3, R4, R5 computes the conjunction and leaves COND alone |
| `Lc3Step.BranchIgnoresCond` | lc3_vm_c/vm.c:260-269 | BRn is taken whatever COND holds |
| `Lc3Step.JmpAlwaysUsesR6` | lc3_vm_c/vm.c:271-274 | every JMP word jumps to R6, whatever register bits 8..6 name |
| `Lc3Step.TrapKeepsR7` | lc3_vm_c/vm.c:288-309 | a TRAP leaves R7 and PC as they were |
| `Lc3Step.InLeavesR0` | lc3_vm_c/vm.c:335-340 | TRAP IN consumes and echoes one byte and changes nothing else |
| `Lc3Step.GetcAtEndOfInput` | lc3_vm_c/vm.c:326-328 | TRAP GETC at end of input leaves 0xFFFF in R0 |
| `Lc3Step.HaltStopsRun` | lc3_vm_c/vm.c:355-359 | a HALT word at PC stops the run after one cycle, with PC past it |
| `JavaOpcodes.JavaOpcodesCoverNibbles` | vm_java/src/InstructionSet.java:2-17 | the sixteen constants are pairwise distinct and are exactly 0..15 |
| `JavaOpcodes.JavaOpcodesMatchEnum` | vm_java/src/InstructionSet.java:2-17 | each Java constant equals the C enum number of the same opcode |
| `JavaOpcodes.JavaUnimplementedAndDocumentedOpcodes` | vm_java/src/InstructionSet.java:10-15 | RTI = 8 and RES = 13 are the opcodes without semantics; ADD = 1 and LDI = 10 match the top nibbles 0001 and 1010 |
| `JavaVm.JavaShr` | vm_java/src/Main.java:69 | Java's `>>` on a non-negative int is the logical shift, and a negative int stays negative |
| `JavaVm.JSignExtend` | vm_java/src/Main.java:19-26 | a field with bit n-1 clear is unchanged; otherwise it gets 16 one bits above bit n, no more, because the mask is `0xFFFF << n` on a 32-bit int |
| `JavaVm.JFlagCode` | vm_java/src/Main.java:29-37 | FL_ZR if and only if the value is 0; FL_NEG if and only if `v >> 15 == 1`, that is 0x8000 <= v < 0x10000; FL_POS otherwise, including every wider value |
| `JavaVm.UpdateFlags` | vm_java/src/Main.java:29-37 | COND gets the code of the register's value; nothing else changes |
| `JavaVm.JavaRead` | vm_java/src/Main.java:40-43 | throws exactly for an index outside 0..65535 (a negative int included), and otherwise reads the cell, with no device registers |
| `JavaVm.JavaWrite` | vm_java/src/Main.java:46-48 | throws exactly for an index outside the array; otherwise exactly one cell changes |
| `JavaVm.AddOp` | vm_java/src/Main.java:68-81 | DR = SR1 + imm5 or SR1 + SR2 in 32-bit arithmetic; COND from DR; only DR and COND change |
| `JavaVm.BitwiseAnd` | vm_java/src/Main.java:141-153 | DR = SR1 & imm5 or SR1 & SR2; COND from DR, unlike the C handler |
| `JavaVm.BitwiseNot` | vm_java/src/Main.java:155-160 | DR is the 32-bit complement of SR; COND from DR |
| `JavaVm.LoadEffectiveAddress` | vm_java/src/Main.java:134-139 | DR = PC + offset9; COND from DR |
| `JavaVm.Load` | vm_java/src/Main.java:83-88 | throws exactly when PC + offset9 is outside the array; otherwise DR gets that cell and COND follows |
| `JavaVm.LoadIndirect` | vm_java/src/Main.java:97-102 | DR = memory[memory[PC + offset9]], throwing when either index is out of range; COND from DR |
| `JavaVm.LoadRegister` | vm_java/src/Main.java:105-112 | reads the cell at the register NUMBER of bits 8..6 plus offset6, not the register's contents |
| `JavaVm.Store` | vm_java/src/Main.java:114-118 | exactly cell PC + offset9 becomes SR, or the index throws |
| `JavaVm.StoreIndirect` | vm_java/src/Main.java:120-124 | the indirect cell is addressed from the constant R_PC = 8, not from PC's value |
| `JavaVm.StoreRegister` | vm_java/src/Main.java:126-131 | writes at register number + a 5-bit offset, not BaseR + offset6 |
| `JavaVm.Branch` | vm_java/src/Main.java:162-171 | n = z = p = 0 changes nothing; otherwise PC += offset9 |
| `JavaVm.Jump` | vm_java/src/Main.java:173-176 | the register index is `instruction >> 7`, which throws for every JMP word |
| `JavaVm.JumpRegister` | vm_java/src/Main.java:179-189 | R7 gets PC; then PC += offset11 (bit 11 set), or PC becomes the register NUMBER of bits 8..6 |
| `JavaVm.Getc` | vm_java/src/Main.java:197-199 | R0 gets the next byte, or -1 at end of input |
| `JavaVm.In` | vm_java/src/Main.java:206-211 | R0 gets the next byte, or 0xFFFF (the `char` of -1) at end of input, unlike the C routine, which stores nothing |
| `JavaVm.Halt` | vm_java/src/Main.java:223-226 | `running` becomes false and nothing else changes |
| `JavaVm.Fetch` | vm_java/src/Main.java:245-246 | reads the cell at PC, increments PC, and takes the opcode as `instruction >> 12` |
| `JavaVm.Cycle` | vm_java/src/Main.java:244-288 | a turn of the loop throws exactly when PC is at or beyond 0x10000, and otherwise only increments PC, whatever the opcode, because every switch arm is empty: memory, input and `running` are kept |
| `JavaAgreement.SignExtendAgrees` | vm_java/src/Main.java:19-26 | for 5-, 6-, 9- and 11-bit fields the two `signExtend`s agree in the low 16 bits, and they are equal when the sign bit is clear |
| `JavaAgreement.FlagsAgree` | vm_java/src/Main.java:29-37 | for 0 <= v < 65536 Java's `updateFlags` stores the code C's stores |
| `JavaAgreement.FlagsDisagreeOnWideValues` | vm_java/src/Main.java:32 | 0x10000 and 0x18000 agree with C words 0 and 0x8000 modulo 2^16 but get FL_POS where C gets ZERO and NEG |
| `JavaAgreement.RegisterFieldsAgree` | vm_java/src/Main.java:69-71 | both programs take the same DR, SR1, SR2, immediate flag and bit 11 from a 16-bit word |
| `JavaAgreement.OffsetsAgree` | vm_java/src/Main.java:74 | the Java imm5, offset6, offset9 and offset11 agree with C's modulo 2^16 |
| `JavaAgreement.AgreeAdd` | vm_java/src/Main.java:75 | 32-bit sums of values that agree modulo 2^16 agree with the 16-bit sum |
| `JavaAgreement.WriteKeepsAgreement` | vm_java/src/Main.java:68-81 | writing agreeing values to the same register keeps R0..R7 and PC in agreement |
| `JavaAgreement.JumpKeepsAgreement` | vm_java/src/Main.java:181-184 | moving PC to agreeing targets, linking R7 alike, keeps the registers in agreement |
| `JavaHandlerAgreement.DecodeMatches` | vm_java/src/Main.java:69-74 | every 16-bit word, widened to an int, gives the Java handlers the same registers and mode bits as C's decoding, and offsets that agree modulo 2^16 |
| `JavaHandlerAgreement.AddAgrees` | vm_java/src/Main.java:68-81 | from agreeing registers, `addOp` and C's `add` on the same word leave R0..R7 and PC in agreement modulo 2^16 |
| `JavaHandlerAgreement.AndAgrees` | vm_java/src/Main.java:141-153 | from agreeing registers, `bitwiseAnd` and C's `and` leave the registers in agreement |
| `JavaHandlerAgreement.NotAgrees` | vm_java/src/Main.java:155-160 | from agreeing registers, `bitwiseNot` and C's `not` leave the registers in agreement |
| `JavaHandlerAgreement.LeaAgrees` | vm_java/src/Main.java:134-139 | from agreeing registers, `loadEffectiveAddress` and C's `lea` leave the registers in agreement |
| `JavaHandlerAgreement.BranchAgrees` | vm_java/src/Main.java:162-171 | `branch` and C's `br` take the same decision and jump to agreeing targets |
| `JavaHandlerAgreement.JsrAgrees` | vm_java/src/Main.java:179-185 | with bit 11 set, `jumpRegister` and C's `jsr` link R7 and jump alike |
| `JavaHandlerAgreement.JsrrDisagrees` | vm_java/src/Main.java:186-188 | with bit 11 clear they part ways: for JSRR R2 with R2 = 5, Java jumps to 2 and C to 5 |
| `JavaMemoryAgreement.IndexAgrees` | vm_java/src/Main.java:40-42 | an index below 0x10000 that agrees with a C address modulo 2^16 is that address |
| `JavaMemoryAgreement.CellAgrees` | vm_java/src/Main.java:40-42 | when the two memories agree cell by cell, `memoryRead` at an in-range index and C's array read at the agreeing address give agreeing words |
| `JavaMemoryAgreement.StoreKeepsAgreement` | vm_java/src/Main.java:45-47 | storing agreeing words at agreeing addresses keeps R0..R7, PC and every memory cell in agreement |
| `JavaMemoryAgreement.LoadAgrees` | vm_java/src/Main.java:83-88 | with matching decodings, `load` below 0x10000 and C's `ld` from an ordinary cell both succeed and leave registers and memory in agreement |
| `JavaMemoryAgreement.LoadIndirectAgrees` | vm_java/src/Main.java:97-102 | with matching decodings, `loadIndirect` and C's `ldi` through two ordinary cells both succeed and leave registers and memory in agreement |
| `JavaMemoryAgreement.StoreAgrees` | vm_java/src/Main.java:114-118 | with matching decodings, the state `store` produces below 0x10000 and C's `st` at any address but 0xFFFF agree in registers and memory |
| `Bytes.Swap16` | c_vm_c/elf.c:4-7 | the high and low bytes of the word are exchanged |
| `Bytes.Swap16Involution` | c_vm_c/elf.c:4-7 | swapping twice gives back the word |
| `Bytes.Swap16Examples` | c_vm_c/elf.c:5 | swap16(0x4000) = 0x0040 and swap16(0x3875) = 0x7538 |
| `Bytes.SwapExchangesBytes` | lc3_vm_c/vm.c:22-24 | swapping the word of bytes (hi, lo) gives the word of bytes (lo, hi) |
| `Bytes.BigEndianBound` | c_vm_c/elf.c:22-46 | an n-byte big-endian number is below 256^n, so 4 bytes fit `uint32_t` and 8 bytes fit `uint64_t` |
| `Bytes.BigEndianOfToBigEndian` | c_vm_c/elf.c:22-46 | reading back the n bytes written for a number below 256^n gives the number |
| `Bytes.ToBigEndianOfBigEndian` | c_vm_c/elf.c:22-46 | writing back the number read from n bytes gives the bytes |
| `ElfStoreData.FoldBits64ReadsBigEndian` | c_vm_c/elf.c:36-43 | midway through the `uint64_t` loop over at most eight bytes, the value is the big-endian number of the bytes read so far, shifted one byte up; the loop ends with the big-endian number of all of them, no bit shifted out |
| `ElfStoreData.StoreDataBits64` | c_vm_c/elf.c:36-43 | the `uint64_t` loop of `storeData` over up to eight bytes, started from zero, computes the number `StoredValue` reads |
| `ElfStoreData.FoldBits32ReadsBigEndian` | c_vm_c/elf.c:26-33 | the same for the `uint32_t` loop over at most four bytes |
| `ElfStoreData.StoreDataBits32` | c_vm_c/elf.c:26-33 | the `uint32_t` loop over up to four bytes (that of `storeData` for 32-bit files, and the flags loop at elf.c:181-187) computes the number `StoredValue` reads |
| `ElfLayout.FieldsTile` | c_vm_c/elf.h:50-70 | for either depth the ten fields after e_version follow each other from 0x18 without gap or overlap and end at the end-of-header offset |
| `ElfLayout.FieldOrderListsEachFieldOnce` | c_vm_c/elf.h:50-68 | each header field appears exactly once in the field order |
| `ElfLayout.FixedPartTiles` | c_vm_c/elf.h:40-50 | magic, class, data, version, OS/ABI, ABI version, pad, type, machine and version follow one another up to 0x18 |
| `ElfLayout.FieldStartStep` | c_vm_c/elf.h:50-70 | each field ends where the next begins |
| `ElfLayout.HeaderFitsBuffer` | c_vm_c/elf.h:34-70 | ELF_HEADER_SIZE equals the 64-bit end of header, the 32-bit header is shorter, and every field lies inside the 64-byte buffer |
| `ElfLayout.FieldSlice` | c_vm_c/elf.h:50-68 | the bytes of a field have the field's width |
| `ElfLayout.IdentOffsetsFollowGabi` | c_vm_c/elf.h:40-47 | the identification offsets are the gABI indices EI_MAG0, EI_CLASS, EI_DATA, EI_VERSION, EI_OSABI, EI_ABIVERSION and EI_PAD, and the type starts at EI_NIDENT = 16 |
| `ElfLayout.OsAbiCodeRoundTrip` | c_vm_c/elf.h:87-106 | every named OS/ABI has a code below 18, and the code names it back |
| `ElfLayout.OsAbiNameRoundTrip` | c_vm_c/elf.h:87-106 | every code below 18 names an OS/ABI whose code it is, so the 18 codes are consecutive from 0 |
| `ElfParser.ReadObjectFile` | c_vm_c/elf.c:50-66 | an empty file fails; otherwise the buffer is 64 bytes, the file's first bytes padded with zeros as `calloc` leaves them |
| `ElfParser.LongFileReadsItsHeader` | c_vm_c/elf.c:57-59 | a file of 64 bytes or more is read as its first 64 bytes |
| `ElfParser.FoldReadsBigEndian` | c_vm_c/elf.c:28-33 | the loop that ORs in a byte and shifts left by 8, over bytes start..last, computes their big-endian number |
| `ElfParser.StoredValue` | c_vm_c/elf.c:16-48 | `storeData` stores the big-endian number of its 4 or 8 bytes, which fits the member |
| `ElfParser.WideField` | c_vm_c/elf.c:165-187 | entry, program and section header offsets and flags are the big-endian numbers of their bytes at the depth's offsets |
| `ElfParser.NarrowField` | c_vm_c/elf.c:189-267 | each 16-bit size, count or index is byte[o] + 256 * byte[o+1] once swapped |
| `ElfParser.PadFromIsZeroMeans` | c_vm_c/elf.c:136-144 | the pad loop passes exactly when bytes 9..15 are all zero |
| `ElfParser.DecodeFields` | c_vm_c/elf.c:115-267 | the decoded members fit their C types; bytes 0x10 and 0x11 are the type's high and low bytes, and bytes 0x12 and 0x13 the machine's |
| `ElfParser.ParseIdentified` | c_vm_c/elf.c:85-267 | past the magic, the class, data, OS/ABI and pad checks reject in that order, each exactly when its byte is out of range, and otherwise the fields are decoded |
| `ElfParser.ParseElfHeader` | c_vm_c/elf.c:69-270 | with the corrected magic check, each error occurs exactly when its check is the first to fail; the file is never reported empty; an accepted header has depth 32 or 64 from byte 4, little-endian if and only if byte 5 is 1, original version if and only if byte 6 is 1, and the OS/ABI and ABI version bytes verbatim |
| `ElfParser.ParsedTypeAndMachine` | c_vm_c/elf.c:147-159 | the type and machine of an accepted header are the big-endian words of bytes 0x10-0x11 and 0x12-0x13 |
| `ElfParser.ParsedWideField` | c_vm_c/elf.c:165-187 | each address, offset and the flags of an accepted header are the big-endian number of the field's bytes at its depth |
| `ElfParser.ParsedNarrowField` | c_vm_c/elf.c:189-267 | each 16-bit member of an accepted header has the field's first byte low and its second byte high |
| `ElfParser.ParseElfHeaderAsWritten` | c_vm_c/elf.c:76-83 | the written magic check rejects only when all four bytes differ from 0x7f, 45, 0x4c and 46; a buffer it lets through is decoded by the same steps as the corrected parser; on a real ELF magic it decides as the corrected parser does |
| `ElfParser.ElfMagicNeverRejected` | c_vm_c/elf.c:76-83 | a buffer starting 0x7f 'E' 'L' 'F' never fails the written magic check |
| `ElfParser.AsWrittenAcceptsNonElf` | c_vm_c/elf.c:78-79 | a header starting 7f 00 00 00 is accepted as written and rejected by the corrected check |
| `ElfParser.OsAbiCheckAcceptsUnnamedCode` | c_vm_c/elf.c:125-129 | an accepted OS/ABI byte is one of the 18 named codes or 0x12, which names none |
| `ElfParser.EncodeElfHeader` | c_vm_c/elf.h:39-71 | the encoder writes a 64-byte header whose identification, type and machine bytes are those of the `ElfInfo` |
| `ElfParser.EncodedFieldAt` | c_vm_c/elf.h:50-70 | the encoder places each field's bytes at the field's offset for the header's depth |
| `ElfParser.WideFieldRoundTrip` | c_vm_c/elf.c:16-48 | reading a wide field of an encoded header gives back its value |
| `ElfParser.NarrowFieldRoundTrip` | c_vm_c/elf.c:189-267 | reading a 16-bit field of an encoded header gives back its value |
| `ElfParser.EncodedIdentAccepted` | c_vm_c/elf.c:76-144 | an encoded header passes the magic, class, data, OS/ABI and pad checks |
| `ElfParser.DecodeEncodedFields` | c_vm_c/elf.c:147-267 | decoding the fields of an encoded header gives back every member |
| `ElfParser.ParseEncodeRoundTrip` | c_vm_c/elf.c:69-270 | parsing the encoding of any well-formed `ElfInfo` gives back that `ElfInfo` |

## Left out

- Terminal and signal plumbing (`checkKey`, `disableInputBuffering`, `restoreInputBuffering`, `handleInterrupt`, `setup`). These are termios, `select` and `signal` calls with no state of the machine in them.
- Whether a key is ready: `select` on standard input becomes the oracle `KeyReady`, true exactly when input bytes remain.
- Console text that is not program output: the "Type in a character" prompt of IN and the "Halting..." message of HALT. `fflush` is left out too. The output sequence holds only the bytes the program's `fputc` calls write.
- Opening the image and object files, and their `exit(-1)` paths. Both are functions of a byte sequence here.
- Lc3Loader.LoadImage and Lc3Loader.LoadImageKeepsOtherCells: an image of odd length whose data words all fit below 0xFFFF ends in half a word. The second `fread` of lc3_vm_c/vm.c:90 then reads that byte as a partial element into cell origin + `DataWords`. ISO C (section 7.21.8.1 of C11) leaves such an element's value indeterminate; glibc stores the byte into the cell's low-addressed half. The model reads whole words only and keeps that cell's previous contents, so on such images `LoadImageKeepsOtherCells` promises a value C does not.
- The loader's indeterminate origin. An image shorter than two bytes is the error `MissingOrigin`, where C would go on with an uninitialised `origin`.
- `zeroExtend` (lc3_vm_c/vm.c:311-315): no instruction calls it.
- The `main` functions of the C programs: command-line glue.
- Java `puts` and `putsp`: their `for` loops never re-read the character, so a letter at R0 loops forever, and `Character.isLetter` is a Unicode table.
- Java console output. The Java state has no output stream, so `out`'s character, `in`'s "Type in a character" prompt and its echo of the character read (vm_java/src/Main.java:207-209), and `halt`'s "Halting..." (Main.java:224) are not modelled. Only their effects on registers, input and `running` are.
- Java `readImageFile`: it never writes memory.
- Java `swap16`: no handler calls it.
- Java `main`, beyond one turn of its loop (`JavaVm.Cycle`).
- The Java handlers that have no C agreement lemma: LDR, STI, STR and JMP. They use the register number or the constant R_PC as an address, or always throw, as their rows state.
- JavaMemoryAgreement.LoadAgrees: covers only addresses where both programs reach the same ordinary cell. Java throws at 0x10000 and above where C wraps modulo 2^16, C faults at 0xFFFF where Java has a cell, and C answers the device registers. It takes the two decodings as matching, which `JavaHandlerAgreement.DecodeMatches` proves for every word, rather than starting from the word itself.
- JavaMemoryAgreement.LoadIndirectAgrees: the same limits as `LoadAgrees`, for both the indirect cell and the cell it addresses.
- JavaMemoryAgreement.StoreAgrees: the same limits as `LoadAgrees`, except that both programs store to a device address like any other cell.
- Lc3Ops.Ldi: the contract says nothing when PC + offset9 or the indirect address it holds is a device register. Such a read goes through `MemoryRead`, whose contract states the device's answer and any input consumed.
- Lc3Ops.Sti: the contract says nothing when PC + offset9 is a device register. That read goes through `MemoryRead` as for LDI, and the store that follows is `MemoryWrite`'s.
- Lc3Step.Execute: its contract states only the RTI/RES and fault facts. What each opcode does is stated by the handler it dispatches to and by the lemmas below it.
- `GPRegister` and `ConditionFlags` are not part of this model. They are taken to number registers and flags as the C header does.
- The debug `printf` of the 64-bit value at c_vm_c/elf.c:44.
- `SET_VALUE`, which no file defines. It is taken to store the value in the named member.
- The `sizeDependent == 0` path of `storeData`, which no call takes, and its unused `bytes` argument.
- `entryHeaderSize`, which no line of `parseElfHeader` sets. It stays 0, as in the zero-initialised `ELF_INFO`.
- The ISA and ET tables of elf.h: names only, never consulted.
- The missing semicolon at c_vm_c/elf.h:29 is read as present.
- c_vm_c/main.c, which uses an interface that is not part of this model, and sample_c/hacky.c (raw writes to an absolute address).

## Findings

| source | as written | input that shows it | evidently intended | confidence | as-written member | corrected member |
|---|---|---|---|---|---|---|
| c_vm_c/elf.c:78-79 | the magic is rejected only when all four bytes differ (`&&`), and the second and fourth bytes are compared with decimal 45 and 46 instead of 0x45 'E' and 0x46 'F' | a 64-byte header `7f 00 00 00 01 01 01 00` followed by zeros | reject unless the buffer starts 0x7f 'E' 'L' 'F' | not executed | `ElfParser.ParseElfHeaderAsWritten`, `ElfParser.AsWrittenAcceptsNonElf` | `ElfParser.ParseElfHeader`, `ElfParser.ParseEncodeRoundTrip` |
