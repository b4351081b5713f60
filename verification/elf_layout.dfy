/** The layout of the ELF file header as the decoder's header declares it:
    the byte offsets of every field for 32-bit and 64-bit files, the widths
    the decoder reads there, and the OS/ABI codes it names. The reference
    for the identification bytes is the System V ABI, chapter 4 "Object
    Files", section "ELF Identification". */
module ElfLayout {

  /** `ELF_HEADER_SIZE`: the decoder reads the first 64 bytes of the file. */
  const ElfHeaderSize: nat := 0x40

  // Identification bytes
  const MagicNumberOffset: nat := 0x0
  const BitDepthOffset: nat := 0x4
  const EndiannessOffset: nat := 0x5
  const ElfVersionOffset: nat := 0x6
  const OsAbiOffset: nat := 0x7
  const AbiVersionOffset: nat := 0x8
  const PadOffset: nat := 0x9

  // Fields at the same place in 32-bit and 64-bit files
  const TypeOffset: nat := 0x10
  const IsaOffset: nat := 0x12
  const VersionOffset: nat := 0x14
  const EntryOffset: nat := 0x18

  // Fields whose place depends on the bit depth
  const ProgramHeader32Offset: nat := 0x1C
  const ProgramHeader64Offset: nat := 0x20
  const SectionHeader32Offset: nat := 0x20
  const SectionHeader64Offset: nat := 0x28
  const Flags32Offset: nat := 0x24
  const Flags64Offset: nat := 0x30
  const HeaderSize32Offset: nat := 0x28
  const HeaderSize64Offset: nat := 0x34
  const ProgramHeaderSize32Offset: nat := 0x2A
  const ProgramHeaderSize64Offset: nat := 0x36
  const ProgramHeaderCount32Offset: nat := 0x2C
  const ProgramHeaderCount64Offset: nat := 0x38
  const SectionHeaderSize32Offset: nat := 0x2E
  const SectionHeaderSize64Offset: nat := 0x3A
  const SectionHeaderCount32Offset: nat := 0x30
  const SectionHeaderCount64Offset: nat := 0x3C
  const SectionNameIndex32Offset: nat := 0x32
  const SectionNameIndex64Offset: nat := 0x3E
  const EndOfHeader32Offset: nat := 0x34
  const EndOfHeader64Offset: nat := 0x40

  /** The identification indices of the System V ABI: EI_MAG0, EI_CLASS,
      EI_DATA, EI_VERSION, EI_OSABI, EI_ABIVERSION, EI_PAD and EI_NIDENT. */
  const EiMag0: nat := 0
  const EiClass: nat := 4
  const EiData: nat := 5
  const EiVersion: nat := 6
  const EiOsAbi: nat := 7
  const EiAbiVersion: nat := 8
  const EiPad: nat := 9
  const EiNident: nat := 16

  /** ELFCLASS32 or ELFCLASS64. */
  datatype BitDepth = Bits32 | Bits64

  /** The fields after the identification, type, machine and version, in
      file order. */
  datatype Field =
    | Entry | ProgramHeaderTable | SectionHeaderTable | Flags
    | HeaderSize | ProgramHeaderSize | ProgramHeaderCount
    | SectionHeaderSize | SectionHeaderCount | SectionNameIndex

  const FieldOrder: seq<Field> :=
    [Entry, ProgramHeaderTable, SectionHeaderTable, Flags, HeaderSize,
     ProgramHeaderSize, ProgramHeaderCount, SectionHeaderSize, SectionHeaderCount, SectionNameIndex]

  /** Where `f` starts in a file of depth `d`. */
  function Offset(f: Field, d: BitDepth): nat {
    match f
    case Entry => EntryOffset
    case ProgramHeaderTable => if d == Bits32 then ProgramHeader32Offset else ProgramHeader64Offset
    case SectionHeaderTable => if d == Bits32 then SectionHeader32Offset else SectionHeader64Offset
    case Flags => if d == Bits32 then Flags32Offset else Flags64Offset
    case HeaderSize => if d == Bits32 then HeaderSize32Offset else HeaderSize64Offset
    case ProgramHeaderSize => if d == Bits32 then ProgramHeaderSize32Offset else ProgramHeaderSize64Offset
    case ProgramHeaderCount => if d == Bits32 then ProgramHeaderCount32Offset else ProgramHeaderCount64Offset
    case SectionHeaderSize => if d == Bits32 then SectionHeaderSize32Offset else SectionHeaderSize64Offset
    case SectionHeaderCount => if d == Bits32 then SectionHeaderCount32Offset else SectionHeaderCount64Offset
    case SectionNameIndex => if d == Bits32 then SectionNameIndex32Offset else SectionNameIndex64Offset
  }

  /** How many bytes the decoder reads for `f`: an address or offset is a
      word of the file's depth, the flags four bytes, the rest two. */
  function Width(f: Field, d: BitDepth): nat {
    match f
    case Entry | ProgramHeaderTable | SectionHeaderTable => if d == Bits32 then 4 else 8
    case Flags => 4
    case _ => 2
  }

  /** The fields read as a big-endian number of four or eight bytes (the
      rest are 16-bit words). */
  predicate IsWide(f: Field) {
    f.Entry? || f.ProgramHeaderTable? || f.SectionHeaderTable? || f.Flags?
  }

  /** Where the header of a file of depth `d` ends. */
  function EndOfHeader(d: BitDepth): nat {
    if d == Bits32 then EndOfHeader32Offset else EndOfHeader64Offset
  }

  /** The depth-dependent fields lie back to back from the entry point to
      the end of the header, with no gap and no overlap, for both depths. */
  lemma FieldsTile(d: BitDepth)
    ensures |FieldOrder| == 10
    ensures Offset(FieldOrder[0], d) == EntryOffset
    ensures forall i :: 0 <= i < |FieldOrder| - 1 ==>
      Offset(FieldOrder[i], d) + Width(FieldOrder[i], d) == Offset(FieldOrder[i + 1], d)
    ensures Offset(FieldOrder[9], d) + Width(FieldOrder[9], d) == EndOfHeader(d)
  {
  }

  /** The place of `f` in the file order. */
  function FieldIndex(f: Field): nat {
    match f
    case Entry => 0
    case ProgramHeaderTable => 1
    case SectionHeaderTable => 2
    case Flags => 3
    case HeaderSize => 4
    case ProgramHeaderSize => 5
    case ProgramHeaderCount => 6
    case SectionHeaderSize => 7
    case SectionHeaderCount => 8
    case SectionNameIndex => 9
  }

  /** Each field appears exactly once in the file order, at its index. */
  lemma FieldOrderListsEachFieldOnce(f: Field)
    ensures FieldIndex(f) < |FieldOrder| && FieldOrder[FieldIndex(f)] == f
    ensures forall i :: 0 <= i < |FieldOrder| && FieldOrder[i] == f ==> i == FieldIndex(f)
  {
  }

  /** The identification, type, machine and version lie back to back up to
      the entry point. */
  lemma FixedPartTiles()
    ensures MagicNumberOffset + 4 == BitDepthOffset
    ensures BitDepthOffset + 1 == EndiannessOffset && EndiannessOffset + 1 == ElfVersionOffset
    ensures ElfVersionOffset + 1 == OsAbiOffset && OsAbiOffset + 1 == AbiVersionOffset
    ensures AbiVersionOffset + 1 == PadOffset && PadOffset + 7 == TypeOffset
    ensures TypeOffset + 2 == IsaOffset && IsaOffset + 2 == VersionOffset && VersionOffset + 4 == EntryOffset
  {
  }

  /** Where field `i` of the file order starts; index 10 is the end of the
      header. */
  function FieldStart(i: nat, d: BitDepth): nat
    requires i <= |FieldOrder|
  {
    if i < |FieldOrder| then Offset(FieldOrder[i], d) else EndOfHeader(d)
  }

  /** One step of the tiling: field `i` ends where the next one starts. */
  lemma FieldStartStep(d: BitDepth, i: nat)
    requires i < |FieldOrder|
    ensures FieldStart(i, d) + Width(FieldOrder[i], d) == FieldStart(i + 1, d)
  {
    FieldsTile(d);
  }

  /** The 64-byte buffer is exactly a 64-bit header, so every byte the
      decoder reads, at either depth, lies inside it. */
  lemma HeaderFitsBuffer(f: Field, d: BitDepth)
    ensures EndOfHeader(Bits64) == ElfHeaderSize
    ensures EndOfHeader(Bits32) < ElfHeaderSize
    ensures Offset(f, d) + Width(f, d) <= EndOfHeader(d) <= ElfHeaderSize
  {
    FieldOrderListsEachFieldOnce(f);
    TiledFieldEndsInside(d, FieldIndex(f));
  }

  /** Field `i` of the file order ends no later than the header. */
  lemma {:induction false} TiledFieldEndsInside(d: BitDepth, i: nat)
    requires i < |FieldOrder|
    ensures Offset(FieldOrder[i], d) + Width(FieldOrder[i], d) <= EndOfHeader(d)
    decreases |FieldOrder| - i
  {
    FieldsTile(d);
    if i < |FieldOrder| - 1 {
      TiledFieldEndsInside(d, i + 1);
    }
  }

  /** The bytes of field `f` in a header of depth `d`. */
  function FieldSlice(buf: seq<bv8>, f: Field, d: BitDepth): (s: seq<bv8>)
    requires |buf| == ElfHeaderSize
    ensures |s| == Width(f, d)
  {
    HeaderFitsBuffer(f, d);
    buf[Offset(f, d)..Offset(f, d) + Width(f, d)]
  }

  /** The identification offsets are the System V ABI's e_ident indices,
      and the padding runs to the end of e_ident. */
  lemma IdentOffsetsFollowGabi()
    ensures MagicNumberOffset == EiMag0 && BitDepthOffset == EiClass
    ensures EndiannessOffset == EiData && ElfVersionOffset == EiVersion
    ensures OsAbiOffset == EiOsAbi && AbiVersionOffset == EiAbiVersion
    ensures PadOffset == EiPad && TypeOffset == EiNident
  {
  }

  // ---------------------------------------------------------------------
  // OS/ABI codes
  // ---------------------------------------------------------------------

  /** The `OS_ABI` enum. */
  datatype OsAbi =
    | SystemV | HpUx | NetBsd | Linux | GnuHurd | Solaris | Aix | Irix | FreeBsd
    | Tru64 | NovellModesto | OpenBsd | OpenVms | NonStopKernel | Aros | FenixOs
    | CloudAbi | StratusOpenVos

  /** The number of names in the enum. */
  const OsAbiNames: nat := 18

  /** The code the enum gives each name: SystemV is 0 and each later name
      one more than the one before. */
  function OsAbiCode(a: OsAbi): nat {
    match a
    case SystemV => 0x00
    case HpUx => 0x01
    case NetBsd => 0x02
    case Linux => 0x03
    case GnuHurd => 0x04
    case Solaris => 0x05
    case Aix => 0x06
    case Irix => 0x07
    case FreeBsd => 0x08
    case Tru64 => 0x09
    case NovellModesto => 0x0A
    case OpenBsd => 0x0B
    case OpenVms => 0x0C
    case NonStopKernel => 0x0D
    case Aros => 0x0E
    case FenixOs => 0x0F
    case CloudAbi => 0x10
    case StratusOpenVos => 0x11
  }

  /** The names in declaration order. */
  const OsAbiOrder: seq<OsAbi> :=
    [SystemV, HpUx, NetBsd, Linux, GnuHurd, Solaris, Aix, Irix, FreeBsd,
     Tru64, NovellModesto, OpenBsd, OpenVms, NonStopKernel, Aros, FenixOs,
     CloudAbi, StratusOpenVos]

  /** The name the enum gives code `c`. */
  function OsAbiOf(c: nat): OsAbi
    requires c < OsAbiNames
  {
    OsAbiOrder[c]
  }

  /** Every name has a code below 18 and is the name of its code ... */
  lemma OsAbiCodeRoundTrip(a: OsAbi)
    ensures OsAbiCode(a) < OsAbiNames
    ensures OsAbiOf(OsAbiCode(a)) == a
  {
  }

  /** ... and every code below 18 is the code of its name: the enum names
      exactly the 18 consecutive codes 0x00 to 0x11. */
  lemma OsAbiNameRoundTrip(c: nat)
    requires c < OsAbiNames
    ensures OsAbiCode(OsAbiOf(c)) == c
  {
  }
}
