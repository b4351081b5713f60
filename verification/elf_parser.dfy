/** The ELF header decoder: `readObjectFile` loads the first 64 bytes of an
    object file, and `parseElfHeader` checks the identification bytes and
    decodes the header fields into an `ELF_INFO`, or stops with `exit(-1)`
    at the first check that fails. The buffer is a `seq<bv8>`; each
    `exit(-1)` is an `Err` naming the message the program prints. */
module ElfParser {
  import opened Wrappers
  import opened Bytes
  import opened ElfLayout

  /** Why the decoder gives up. */
  datatype ElfError =
    | EmptyFile          // "Failed to carry out read operation"
    | BadMagic           // "Incorrect magic number"
    | UnknownBitDepth    // "Could not determine bit depth"
    | UnknownEndianness  // "Could not determine endianness"
    | UnknownOsAbi       // "Unknown abi os"
    | NonZeroPad         // "EI_PAD should be zero"

  /** `ELF_INFO`. The bit depth is kept as the class it was decoded from;
      the addresses, offsets and flags are numbers, the 8- and 16-bit
      members machine words. */
  datatype ElfInfo = ElfInfo(
    bitDepth: BitDepth,
    isLittleEndian: bool,
    isElfOriginalVersion: bool,
    abiOs: bv8,
    abiVersion: bv8,
    objectType: bv16,  // `type`
    isa: bv16,
    entryPointOffset: nat,
    programHeaderOffset: nat,
    sectionHeaderOffset: nat,
    flags: nat,
    elfHeaderSize: bv16,
    entryHeaderSize: bv16,
    programHeaderSize: bv16,
    programHeaderEntriesNum: bv16,
    sectionHeaderSize: bv16,
    sectionHeaderEntriesNum: bv16,
    sectionHeaderIndex: bv16)

  // ---------------------------------------------------------------------
  // Reading the file
  // ---------------------------------------------------------------------

  /** `n` zero bytes. */
  function Zeros(n: nat): (z: seq<bv8>)
    ensures |z| == n && forall k :: 0 <= k < n ==> z[k] == 0
  {
    seq(n, _ => 0)
  }

  /** `readObjectFile`: a zeroed 64-byte buffer (`calloc`) into which
      `fread` copies as many of the file's bytes as fit. Reading nothing is
      an error. */
  function ReadObjectFile(file: seq<bv8>): (r: Result<seq<bv8>, ElfError>)
    ensures r.Err? <==> |file| == 0
    ensures r.Err? ==> r.error == EmptyFile
    ensures r.Ok? ==> |r.value| == ElfHeaderSize
    ensures r.Ok? ==> forall k :: 0 <= k < ElfHeaderSize ==>
      r.value[k] == if k < |file| then file[k] else 0
  {
    if |file| == 0 then Err(EmptyFile)
    else
      var n := if |file| < ElfHeaderSize then |file| else ElfHeaderSize;
      Ok(file[..n] + Zeros(ElfHeaderSize - n))
  }

  /** A file of at least 64 bytes is read as its first 64 bytes. */
  lemma LongFileReadsItsHeader(file: seq<bv8>)
    requires |file| >= ElfHeaderSize
    ensures ReadObjectFile(file) == Ok(file[..ElfHeaderSize])
  {
    assert ReadObjectFile(file).value == file[..ElfHeaderSize];
  }

  // ---------------------------------------------------------------------
  // storeData
  // ---------------------------------------------------------------------

  /** The loop of `storeData` (and of the flags): for every byte but the
      last `value |= byte; value <<= 8`, then `value |= last`, here on
      unbounded numbers, where the `|=` into the cleared low byte is an
      addition. `ElfStoreData` shows that the C loops on `uint64_t` and
      `uint32_t` compute the same numbers. */
  function Fold(buf: seq<bv8>, i: nat, last: nat, value: nat): nat
    requires i <= last < |buf|
    decreases last - i
  {
    if i == last then value + buf[last] as nat
    else Fold(buf, i + 1, last, (value + buf[i] as nat) * 256)
  }

  /** Midway through the loop the value is the bytes read so far, shifted
      one byte up. */
  lemma {:induction false} FoldReadsBigEndian(buf: seq<bv8>, start: nat, i: nat, last: nat, value: nat)
    requires start <= i <= last < |buf|
    requires value == BigEndian(buf[start..i]) * 256
    ensures Fold(buf, i, last, value) == BigEndian(buf[start..last + 1])
    decreases last - i
  {
    assert buf[start..i + 1] == buf[start..i] + [buf[i]];
    BigEndianSnoc(buf[start..i], buf[i]);
    if i < last {
      FoldReadsBigEndian(buf, start, i + 1, last, (value + buf[i] as nat) * 256);
    }
  }

  /** `storeData`: the `count` bytes from `start`, read most significant
      first, starting from zero. */
  function StoredValue(buf: seq<bv8>, start: nat, count: nat): (v: nat)
    requires 1 <= count && start + count <= |buf|
    ensures v == BigEndian(buf[start..start + count])
    ensures v < Pow256(count)
  {
    assert buf[start..start] == [];
    FoldReadsBigEndian(buf, start, start, start + count - 1, 0);
    BigEndianBound(buf[start..start + count]);
    Fold(buf, start, start + count - 1, 0)
  }

  /** An address, offset or the flags: `storeData` (or the flags loop) at
      the field's offset for the file's depth. */
  function WideField(buf: seq<bv8>, f: Field, d: BitDepth): (v: nat)
    requires |buf| == ElfHeaderSize
    ensures v == BigEndian(FieldSlice(buf, f, d))
    ensures v < Pow256(Width(f, d))
  {
    HeaderFitsBuffer(f, d);
    StoredValue(buf, Offset(f, d), Width(f, d))
  }

  /** A 16-bit member after the identification: the two bytes are read
      high byte first (`|=`, `<<= 8`, `|=`) and then swapped with
      `swap16`, so the byte at the offset ends up as the LOW byte. */
  function NarrowField(buf: seq<bv8>, f: Field, d: BitDepth): (w: bv16)
    requires |buf| == ElfHeaderSize && !IsWide(f)
    ensures w == Word16(FieldSlice(buf, f, d)[1], FieldSlice(buf, f, d)[0])
  {
    HeaderFitsBuffer(f, d);
    SwapExchangesBytes(buf[Offset(f, d)], buf[Offset(f, d) + 1]);
    Swap16(Word16(buf[Offset(f, d)], buf[Offset(f, d) + 1]))
  }

  // ---------------------------------------------------------------------
  // parseElfHeader
  // ---------------------------------------------------------------------

  /** The four bytes 0x7f 'E' 'L' 'F' at the start of every ELF file. */
  predicate HasElfMagic(buf: seq<bv8>)
    requires |buf| >= 4
  {
    buf[0] == 0x7f && buf[1] == 0x45 && buf[2] == 0x4c && buf[3] == 0x46
  }

  /** The magic check as the decoder writes it: the buffer is rejected only
      when EVERY byte differs from 0x7f, 45, 0x4c and 46, where 45 and 46
      are decimal ('-' and '.'). */
  predicate MagicRejectedAsWritten(buf: seq<bv8>)
    requires |buf| >= 4
  {
    buf[0] != 0x7f && buf[1] != 45 && buf[2] != 0x4c && buf[3] != 46
  }

  /** The class byte names ELFCLASS32 (1) or ELFCLASS64 (2). */
  predicate KnownClass(buf: seq<bv8>)
    requires |buf| == ElfHeaderSize
  {
    buf[BitDepthOffset] == 1 || buf[BitDepthOffset] == 2
  }

  /** The data byte names ELFDATA2LSB (1) or ELFDATA2MSB (2). */
  predicate KnownData(buf: seq<bv8>)
    requires |buf| == ElfHeaderSize
  {
    buf[EndiannessOffset] == 1 || buf[EndiannessOffset] == 2
  }

  /** Every EI_PAD byte is zero. */
  predicate PadIsZero(buf: seq<bv8>)
    requires |buf| == ElfHeaderSize
  {
    forall k :: PadOffset <= k < TypeOffset ==> buf[k] == 0
  }

  /** The EI_PAD loop: bytes `i` up to the type field must all be zero. */
  predicate PadFromIsZero(buf: seq<bv8>, i: nat)
    requires |buf| == ElfHeaderSize
    decreases TypeOffset - i
  {
    i >= TypeOffset || (buf[i] == 0 && PadFromIsZero(buf, i + 1))
  }

  /** The loop accepts exactly the buffers whose bytes from `i` to the end
      of the identification are zero. */
  lemma {:induction false} PadFromIsZeroMeans(buf: seq<bv8>, i: nat)
    requires |buf| == ElfHeaderSize
    ensures PadFromIsZero(buf, i) <==> forall k :: i <= k < TypeOffset ==> buf[k] == 0
    decreases TypeOffset - i
  {
    if i < TypeOffset {
      PadFromIsZeroMeans(buf, i + 1);
    }
  }

  /** The class byte's depth; only used once the byte is 1 or 2. */
  function DepthOf(classByte: bv8): BitDepth {
    if classByte == 1 then Bits32 else Bits64
  }

  /** A decoded header whose members fit their C types and that the
      encoder below can write back. */
  predicate WellFormed(info: ElfInfo) {
    && info.abiOs <= 0x12
    && info.entryPointOffset < Pow256(Width(Entry, info.bitDepth))
    && info.programHeaderOffset < Pow256(Width(ProgramHeaderTable, info.bitDepth))
    && info.sectionHeaderOffset < Pow256(Width(SectionHeaderTable, info.bitDepth))
    && info.flags < Pow256(Width(Flags, info.bitDepth))
    && info.entryHeaderSize == 0
  }

  /** The member a wide field is stored in. */
  function WideValue(info: ElfInfo, f: Field): nat
    requires IsWide(f)
  {
    match f
    case Entry => info.entryPointOffset
    case ProgramHeaderTable => info.programHeaderOffset
    case SectionHeaderTable => info.sectionHeaderOffset
    case Flags => info.flags
  }

  /** The member a 16-bit field is stored in. */
  function NarrowValue(info: ElfInfo, f: Field): bv16
    requires !IsWide(f)
  {
    match f
    case HeaderSize => info.elfHeaderSize
    case ProgramHeaderSize => info.programHeaderSize
    case ProgramHeaderCount => info.programHeaderEntriesNum
    case SectionHeaderSize => info.sectionHeaderSize
    case SectionHeaderCount => info.sectionHeaderEntriesNum
    case SectionNameIndex => info.sectionHeaderIndex
  }

  /** The members decoded once every identification check has passed. The
      type and machine are each read as `|=`, `<<= 8`, `|=` into a zeroed
      16-bit member, which is the word of the two bytes. */
  function DecodeFields(buf: seq<bv8>): (info: ElfInfo)
    requires |buf| == ElfHeaderSize && buf[OsAbiOffset] <= 0x12
    ensures WellFormed(info)
    ensures HighByte(info.objectType) == buf[0x10] && LowByte(info.objectType) == buf[0x11]
    ensures HighByte(info.isa) == buf[0x12] && LowByte(info.isa) == buf[0x13]
  {
    BytesOfWord16(buf[TypeOffset], buf[TypeOffset + 1]);
    BytesOfWord16(buf[IsaOffset], buf[IsaOffset + 1]);
    var d := DepthOf(buf[BitDepthOffset]);
    ElfInfo(
      bitDepth := d,
      isLittleEndian := buf[EndiannessOffset] == 1,
      isElfOriginalVersion := buf[ElfVersionOffset] == 1,
      abiOs := buf[OsAbiOffset],
      abiVersion := buf[AbiVersionOffset],
      objectType := Word16(buf[TypeOffset], buf[TypeOffset + 1]),
      isa := Word16(buf[IsaOffset], buf[IsaOffset + 1]),
      entryPointOffset := WideField(buf, Entry, d),
      programHeaderOffset := WideField(buf, ProgramHeaderTable, d),
      sectionHeaderOffset := WideField(buf, SectionHeaderTable, d),
      flags := WideField(buf, Flags, d),
      elfHeaderSize := NarrowField(buf, HeaderSize, d),
      entryHeaderSize := 0,
      programHeaderSize := NarrowField(buf, ProgramHeaderSize, d),
      programHeaderEntriesNum := NarrowField(buf, ProgramHeaderCount, d),
      sectionHeaderSize := NarrowField(buf, SectionHeaderSize, d),
      sectionHeaderEntriesNum := NarrowField(buf, SectionHeaderCount, d),
      sectionHeaderIndex := NarrowField(buf, SectionNameIndex, d))
  }

  /** The checks after the magic number, in the decoder's order: class,
      data encoding, OS/ABI, padding. The version byte is decoded but never
      rejected. */
  function ParseIdentified(buf: seq<bv8>): (r: Result<ElfInfo, ElfError>)
    requires |buf| == ElfHeaderSize
    ensures r == Err(UnknownBitDepth) <==> !KnownClass(buf)
    ensures r == Err(UnknownEndianness) <==> KnownClass(buf) && !KnownData(buf)
    ensures r == Err(UnknownOsAbi) <==> KnownClass(buf) && KnownData(buf) && buf[OsAbiOffset] > 0x12
    ensures r == Err(NonZeroPad) <==>
      KnownClass(buf) && KnownData(buf) && buf[OsAbiOffset] <= 0x12 && !PadIsZero(buf)
    ensures r.Ok? <==> KnownClass(buf) && KnownData(buf) && buf[OsAbiOffset] <= 0x12 && PadIsZero(buf)
    ensures r.Ok? ==> r.value == DecodeFields(buf)
  {
    PadFromIsZeroMeans(buf, PadOffset);
    if buf[BitDepthOffset] != 1 && buf[BitDepthOffset] != 2 then Err(UnknownBitDepth)
    else if buf[EndiannessOffset] != 1 && buf[EndiannessOffset] != 2 then Err(UnknownEndianness)
    else if buf[OsAbiOffset] > 0x12 then Err(UnknownOsAbi)
    else if !PadFromIsZero(buf, PadOffset) then Err(NonZeroPad)
    else Ok(DecodeFields(buf))
  }

  /** `parseElfHeader` with the magic check corrected to require all four
      bytes 0x7f 'E' 'L' 'F'. */
  function ParseElfHeader(buf: seq<bv8>): (r: Result<ElfInfo, ElfError>)
    requires |buf| == ElfHeaderSize
    // each rejection happens exactly when the earlier checks pass and its own fails
    ensures r == Err(BadMagic) <==> !HasElfMagic(buf)
    ensures r == Err(UnknownBitDepth) <==> HasElfMagic(buf) && !KnownClass(buf)
    ensures r == Err(UnknownEndianness) <==> HasElfMagic(buf) && KnownClass(buf) && !KnownData(buf)
    ensures r == Err(UnknownOsAbi) <==>
      HasElfMagic(buf) && KnownClass(buf) && KnownData(buf) && buf[7] > 0x12
    ensures r == Err(NonZeroPad) <==>
      HasElfMagic(buf) && KnownClass(buf) && KnownData(buf) && buf[7] <= 0x12 && !PadIsZero(buf)
    ensures r.Err? ==> r.error != EmptyFile
    // what an accepted header decodes to
    ensures r.Ok? ==> WellFormed(r.value)
    ensures r.Ok? ==> (r.value.bitDepth == Bits32 <==> buf[4] == 1)
    ensures r.Ok? ==> (r.value.bitDepth == Bits64 <==> buf[4] == 2)
    ensures r.Ok? ==> (r.value.isLittleEndian <==> buf[5] == 1)
    ensures r.Ok? ==> (r.value.isElfOriginalVersion <==> buf[6] == 1)
    ensures r.Ok? ==> r.value.abiOs == buf[7] && r.value.abiVersion == buf[8]
  {
    if !HasElfMagic(buf) then Err(BadMagic) else ParseIdentified(buf)
  }

  /** The type and machine of an accepted header are big-endian: the byte at
      the lower offset is the high byte. */
  lemma ParsedTypeAndMachine(buf: seq<bv8>, info: ElfInfo)
    requires |buf| == ElfHeaderSize && ParseElfHeader(buf) == Ok(info)
    ensures HighByte(info.objectType) == buf[0x10] && LowByte(info.objectType) == buf[0x11]
    ensures HighByte(info.isa) == buf[0x12] && LowByte(info.isa) == buf[0x13]
  {
    BytesOfWord16(buf[TypeOffset], buf[TypeOffset + 1]);
    BytesOfWord16(buf[IsaOffset], buf[IsaOffset + 1]);
  }

  /** An address, offset or the flags of an accepted header is the
      big-endian number of its bytes at the offset for the file's depth. */
  lemma ParsedWideField(buf: seq<bv8>, info: ElfInfo, f: Field)
    requires |buf| == ElfHeaderSize && ParseElfHeader(buf) == Ok(info) && IsWide(f)
    ensures WideValue(info, f) == BigEndian(FieldSlice(buf, f, info.bitDepth))
  {
    assert info == DecodeFields(buf);
  }

  /** A 16-bit member of an accepted header is little-endian: the byte at
      the field's offset is its low byte. */
  lemma ParsedNarrowField(buf: seq<bv8>, info: ElfInfo, f: Field)
    requires |buf| == ElfHeaderSize && ParseElfHeader(buf) == Ok(info) && !IsWide(f)
    ensures LowByte(NarrowValue(info, f)) == FieldSlice(buf, f, info.bitDepth)[0]
    ensures HighByte(NarrowValue(info, f)) == FieldSlice(buf, f, info.bitDepth)[1]
  {
    assert info == DecodeFields(buf);
    var s := FieldSlice(buf, f, info.bitDepth);
    assert NarrowValue(info, f) == Word16(s[1], s[0]);
    BytesOfWord16(s[1], s[0]);
  }

  /** `parseElfHeader` exactly as written, with its magic check. */
  function ParseElfHeaderAsWritten(buf: seq<bv8>): (r: Result<ElfInfo, ElfError>)
    requires |buf| == ElfHeaderSize
    ensures r == Err(BadMagic) <==> MagicRejectedAsWritten(buf)
    ensures !MagicRejectedAsWritten(buf) ==> r == ParseIdentified(buf)
    ensures HasElfMagic(buf) ==> r == ParseElfHeader(buf)
  {
    if MagicRejectedAsWritten(buf) then Err(BadMagic) else ParseIdentified(buf)
  }

  /** A buffer that starts 0x7f 'E' 'L' 'F' is never rejected by the
      written magic check. */
  lemma ElfMagicNeverRejected(buf: seq<bv8>)
    requires |buf| >= 4 && HasElfMagic(buf)
    ensures !MagicRejectedAsWritten(buf)
  {
  }

  /** A header whose first byte is 0x7f and whose next three are zero is not
      an ELF file, yet the written check lets it through and the decoder
      accepts it; the corrected check rejects it. */
  lemma AsWrittenAcceptsNonElf()
    ensures var buf := [0x7f, 0, 0, 0, 1, 1, 1, 0] + Zeros(56);
      |buf| == ElfHeaderSize && !HasElfMagic(buf) &&
      ParseElfHeaderAsWritten(buf).Ok? && ParseElfHeader(buf) == Err(BadMagic)
  {
    var buf: seq<bv8> := [0x7f, 0, 0, 0, 1, 1, 1, 0] + Zeros(56);
    assert PadIsZero(buf);
  }

  /** The OS/ABI check lets 0x12 through, a code the `OS_ABI` enum does not
      name: the accepted codes are the 18 named ones and 0x12. */
  lemma OsAbiCheckAcceptsUnnamedCode(buf: seq<bv8>, info: ElfInfo)
    requires |buf| == ElfHeaderSize && ParseElfHeader(buf) == Ok(info)
    ensures info.abiOs as nat < OsAbiNames || info.abiOs == 0x12
    ensures forall a :: OsAbiCode(a) != 0x12
  {
    forall a ensures OsAbiCode(a) != 0x12 {
      OsAbiCodeRoundTrip(a);
    }
  }

  // ---------------------------------------------------------------------
  // The partner: writing a header
  // ---------------------------------------------------------------------

  /** The bytes of field `f`: big-endian for the addresses, offsets and
      flags, low byte first for the 16-bit members. */
  function FieldBytes(info: ElfInfo, f: Field): (b: seq<bv8>)
    ensures |b| == Width(f, info.bitDepth)
  {
    if IsWide(f) then ToBigEndian(WideValue(info, f), Width(f, info.bitDepth))
    else [LowByte(NarrowValue(info, f)), HighByte(NarrowValue(info, f))]
  }

  /** The bytes of fields `i` onward, back to back. */
  function FieldRun(info: ElfInfo, i: nat): (b: seq<bv8>)
    requires i <= |FieldOrder|
    ensures FieldStart(i, info.bitDepth) <= EndOfHeader(info.bitDepth)
    ensures |b| == EndOfHeader(info.bitDepth) - FieldStart(i, info.bitDepth)
    decreases |FieldOrder| - i
  {
    if i == |FieldOrder| then []
    else
      FieldStartStep(info.bitDepth, i);
      FieldBytes(info, FieldOrder[i]) + FieldRun(info, i + 1)
  }

  /** The run from field `i` is field `i`'s bytes followed by the run from
      the next field. */
  lemma RunSplits(info: ElfInfo, i: nat)
    requires i < |FieldOrder|
    ensures FieldRun(info, i) == FieldBytes(info, FieldOrder[i]) + FieldRun(info, i + 1)
    ensures FieldStart(i + 1, info.bitDepth) - FieldStart(i, info.bitDepth) == |FieldBytes(info, FieldOrder[i])|
  {
    FieldStartStep(info.bitDepth, i);
  }

  /** Field `j` sits in the run from field `i` at its own offset, relative
      to where the run starts: the tiling of the header layout. */
  lemma {:induction false} FieldInRun(info: ElfInfo, i: nat, j: nat)
    requires i <= j < |FieldOrder|
    ensures FieldStart(i, info.bitDepth) <= FieldStart(j, info.bitDepth)
    ensures PlacedAt(FieldRun(info, i), FieldStart(j, info.bitDepth) - FieldStart(i, info.bitDepth),
                     FieldBytes(info, FieldOrder[j]))
    decreases j - i
  {
    var d := info.bitDepth;
    RunSplits(info, i);
    if i == j {
      PlacedFirst(FieldBytes(info, FieldOrder[i]), FieldRun(info, i + 1));
    } else {
      FieldInRun(info, i + 1, j);
      PlacedAfter(FieldBytes(info, FieldOrder[i]), FieldRun(info, i + 1),
        FieldStart(j, d) - FieldStart(i + 1, d), FieldBytes(info, FieldOrder[j]));
    }
  }

  /** Byte `k` of the identification, type, machine and version of `info`:
      magic, class, data encoding, version, OS/ABI, ABI version, zero
      padding, type and machine big-endian, and a zero version word (the
      decoder skips it). */
  function PrefixByte(info: ElfInfo, k: nat): bv8
    requires k < EntryOffset
  {
    if PadOffset <= k < TypeOffset || VersionOffset <= k then 0
    else if k == 0 then 0x7f
    else if k == 1 then 0x45
    else if k == 2 then 0x4c
    else if k == 3 then 0x46
    else if k == BitDepthOffset then (if info.bitDepth == Bits32 then 1 else 2)
    else if k == EndiannessOffset then (if info.isLittleEndian then 1 else 2)
    else if k == ElfVersionOffset then (if info.isElfOriginalVersion then 1 else 0)
    else if k == OsAbiOffset then info.abiOs
    else if k == AbiVersionOffset then info.abiVersion
    else if k == TypeOffset then HighByte(info.objectType)
    else if k == TypeOffset + 1 then LowByte(info.objectType)
    else if k == IsaOffset then HighByte(info.isa)
    else LowByte(info.isa)
  }

  /** The bytes before the entry point. */
  function Prefix(info: ElfInfo): (b: seq<bv8>)
    ensures |b| == EntryOffset
    ensures forall k :: 0 <= k < EntryOffset ==> b[k] == PrefixByte(info, k)
  {
    seq(EntryOffset, k requires 0 <= k < EntryOffset => PrefixByte(info, k))
  }

  /** The 64-byte header that decodes to `info`: the prefix, the fields in
      file order and, for a 32-bit header, zero bytes up to 64. */
  function EncodeElfHeader(info: ElfInfo): (buf: seq<bv8>)
    requires WellFormed(info)
    ensures |buf| == ElfHeaderSize
    ensures forall k :: 0 <= k < EntryOffset ==> buf[k] == PrefixByte(info, k)
  {
    var run := FieldRun(info, 0);
    assert |run| == EndOfHeader(info.bitDepth) - EntryOffset;
    Prefix(info) + run + Zeros(ElfHeaderSize - EndOfHeader(info.bitDepth))
  }

  /** Field `f` sits in the run of all fields at its offset past the
      entry point. */
  lemma FieldInFullRun(info: ElfInfo, f: Field)
    ensures PlacedAt(FieldRun(info, 0), Offset(f, info.bitDepth) - EntryOffset, FieldBytes(info, f))
  {
    FieldOrderListsEachFieldOnce(f);
    FieldInRun(info, 0, FieldIndex(f));
  }

  /** Every field of an encoded header holds the field's bytes. */
  lemma EncodedFieldAt(info: ElfInfo, f: Field)
    requires WellFormed(info)
    ensures FieldSlice(EncodeElfHeader(info), f, info.bitDepth) == FieldBytes(info, f)
  {
    var d := info.bitDepth;
    var prefix, run := Prefix(info), FieldRun(info, 0);
    var rest := Zeros(ElfHeaderSize - EndOfHeader(d));
    FieldInFullRun(info, f);
    PlacedAfter(prefix, run, Offset(f, d) - EntryOffset, FieldBytes(info, f));
    PlacedBefore(prefix + run, rest, Offset(f, d), FieldBytes(info, f));
    assert EncodeElfHeader(info) == prefix + run + rest;
  }

  /** An address, offset or the flags reads back as written. */
  lemma WideFieldRoundTrip(info: ElfInfo, f: Field)
    requires WellFormed(info) && IsWide(f)
    ensures WideField(EncodeElfHeader(info), f, info.bitDepth) == WideValue(info, f)
  {
    EncodedFieldAt(info, f);
    BigEndianOfToBigEndian(WideValue(info, f), Width(f, info.bitDepth));
  }

  /** A 16-bit member reads back as written. */
  lemma NarrowFieldRoundTrip(info: ElfInfo, f: Field)
    requires WellFormed(info) && !IsWide(f)
    ensures NarrowField(EncodeElfHeader(info), f, info.bitDepth) == NarrowValue(info, f)
  {
    EncodedFieldAt(info, f);
    var s := FieldSlice(EncodeElfHeader(info), f, info.bitDepth);
    Word16FromBytes(s[1], s[0], NarrowValue(info, f));
  }

  /** The padding of an encoded header is zero. */
  lemma EncodedPadIsZero(info: ElfInfo)
    requires WellFormed(info)
    ensures PadIsZero(EncodeElfHeader(info))
  {
    var buf := EncodeElfHeader(info);
    forall k | PadOffset <= k < TypeOffset ensures buf[k] == 0 {
      assert buf[k] == PrefixByte(info, k);
    }
  }

  /** The identification of an encoded header passes every check. */
  lemma EncodedIdentAccepted(info: ElfInfo)
    requires WellFormed(info)
    ensures HasElfMagic(EncodeElfHeader(info))
    ensures KnownClass(EncodeElfHeader(info)) && KnownData(EncodeElfHeader(info))
    ensures EncodeElfHeader(info)[OsAbiOffset] <= 0x12 && PadIsZero(EncodeElfHeader(info))
  {
    var buf := EncodeElfHeader(info);
    assert buf[0] == PrefixByte(info, 0) && buf[1] == PrefixByte(info, 1);
    assert buf[2] == PrefixByte(info, 2) && buf[3] == PrefixByte(info, 3);
    assert buf[BitDepthOffset] == PrefixByte(info, BitDepthOffset);
    assert buf[EndiannessOffset] == PrefixByte(info, EndiannessOffset);
    assert buf[OsAbiOffset] == PrefixByte(info, OsAbiOffset);
    EncodedPadIsZero(info);
  }

  /** The prefix members of an encoded header read back as written. */
  lemma EncodedPrefixRoundTrip(info: ElfInfo)
    requires WellFormed(info)
    ensures DepthOf(EncodeElfHeader(info)[BitDepthOffset]) == info.bitDepth
    ensures (EncodeElfHeader(info)[EndiannessOffset] == 1) == info.isLittleEndian
    ensures (EncodeElfHeader(info)[ElfVersionOffset] == 1) == info.isElfOriginalVersion
    ensures EncodeElfHeader(info)[OsAbiOffset] == info.abiOs
    ensures EncodeElfHeader(info)[AbiVersionOffset] == info.abiVersion
  {
    var buf := EncodeElfHeader(info);
    assert buf[BitDepthOffset] == PrefixByte(info, BitDepthOffset);
    assert buf[EndiannessOffset] == PrefixByte(info, EndiannessOffset);
    assert buf[ElfVersionOffset] == PrefixByte(info, ElfVersionOffset);
    assert buf[OsAbiOffset] == PrefixByte(info, OsAbiOffset);
    assert buf[AbiVersionOffset] == PrefixByte(info, AbiVersionOffset);
  }

  /** The prefix bytes of the type and machine spell them big-endian. */
  lemma PrefixWords(info: ElfInfo, typeHi: bv8, typeLo: bv8, isaHi: bv8, isaLo: bv8)
    requires typeHi == PrefixByte(info, TypeOffset) && typeLo == PrefixByte(info, TypeOffset + 1)
    requires isaHi == PrefixByte(info, IsaOffset) && isaLo == PrefixByte(info, IsaOffset + 1)
    ensures Word16(typeHi, typeLo) == info.objectType && Word16(isaHi, isaLo) == info.isa
  {
    Word16FromBytes(typeHi, typeLo, info.objectType);
    Word16FromBytes(isaHi, isaLo, info.isa);
  }

  /** The type and machine of an encoded header read back as written. */
  lemma EncodedTypeAndMachineRoundTrip(info: ElfInfo)
    requires WellFormed(info)
    ensures Word16(EncodeElfHeader(info)[TypeOffset], EncodeElfHeader(info)[TypeOffset + 1]) == info.objectType
    ensures Word16(EncodeElfHeader(info)[IsaOffset], EncodeElfHeader(info)[IsaOffset + 1]) == info.isa
  {
    var buf := EncodeElfHeader(info);
    PrefixWords(info, buf[TypeOffset], buf[TypeOffset + 1], buf[IsaOffset], buf[IsaOffset + 1]);
  }

  /** A buffer whose every field holds the corresponding member of `info`
      decodes to `info`. */
  lemma DecodeFieldsOf(buf: seq<bv8>, info: ElfInfo)
    requires |buf| == ElfHeaderSize && buf[OsAbiOffset] <= 0x12 && info.entryHeaderSize == 0
    requires DepthOf(buf[BitDepthOffset]) == info.bitDepth
    requires (buf[EndiannessOffset] == 1) == info.isLittleEndian
    requires (buf[ElfVersionOffset] == 1) == info.isElfOriginalVersion
    requires buf[OsAbiOffset] == info.abiOs && buf[AbiVersionOffset] == info.abiVersion
    requires Word16(buf[TypeOffset], buf[TypeOffset + 1]) == info.objectType
    requires Word16(buf[IsaOffset], buf[IsaOffset + 1]) == info.isa
    requires forall f | IsWide(f) :: WideField(buf, f, info.bitDepth) == WideValue(info, f)
    requires forall f | !IsWide(f) :: NarrowField(buf, f, info.bitDepth) == NarrowValue(info, f)
    ensures DecodeFields(buf) == info
  {
    var d := info.bitDepth;
    assert WideField(buf, Entry, d) == info.entryPointOffset;
    assert WideField(buf, ProgramHeaderTable, d) == info.programHeaderOffset;
    assert WideField(buf, SectionHeaderTable, d) == info.sectionHeaderOffset;
    assert WideField(buf, Flags, d) == info.flags;
    assert NarrowField(buf, HeaderSize, d) == info.elfHeaderSize;
    assert NarrowField(buf, ProgramHeaderSize, d) == info.programHeaderSize;
    assert NarrowField(buf, ProgramHeaderCount, d) == info.programHeaderEntriesNum;
    assert NarrowField(buf, SectionHeaderSize, d) == info.sectionHeaderSize;
    assert NarrowField(buf, SectionHeaderCount, d) == info.sectionHeaderEntriesNum;
    assert NarrowField(buf, SectionNameIndex, d) == info.sectionHeaderIndex;
  }

  /** The members decoded from an encoded header are the members written. */
  lemma DecodeEncodedFields(info: ElfInfo)
    requires WellFormed(info)
    ensures EncodeElfHeader(info)[OsAbiOffset] <= 0x12
    ensures DecodeFields(EncodeElfHeader(info)) == info
  {
    EncodedPrefixRoundTrip(info);
    EncodedTypeAndMachineRoundTrip(info);
    forall f | IsWide(f)
      ensures WideField(EncodeElfHeader(info), f, info.bitDepth) == WideValue(info, f)
    {
      WideFieldRoundTrip(info, f);
    }
    forall f | !IsWide(f)
      ensures NarrowField(EncodeElfHeader(info), f, info.bitDepth) == NarrowValue(info, f)
    {
      NarrowFieldRoundTrip(info, f);
    }
    DecodeFieldsOf(EncodeElfHeader(info), info);
  }

  /** Decoding an encoded header gives back every member: the encoder is a
      right inverse of the decoder on well-formed headers. */
  lemma ParseEncodeRoundTrip(info: ElfInfo)
    requires WellFormed(info)
    ensures ParseElfHeader(EncodeElfHeader(info)) == Ok(info)
  {
    EncodedIdentAccepted(info);
    DecodeEncodedFields(info);
  }
}
