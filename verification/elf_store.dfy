/** `storeData` and the flags loop of the ELF header decoder in the C
    integer types they run on: the bytes of an address, offset or the flags
    are folded into a `uint64_t` (64-bit files) or a `uint32_t` (32-bit
    files and the flags) by `value |= byte; value <<= 8` and a final
    `value |= last`. At most eight, respectively four, bytes are folded, so
    no bit is shifted out and the result is the number `StoredValue` reads. */
module ElfStoreData {
  import opened Bytes
  import opened ElfParser

  /** `v <<= 8; v |= b` on a `uint64_t` below 2^56: the shift loses no bit
      and the `|=` lands in the cleared low byte, so the value becomes
      v * 256 + b. */
  lemma ShiftInByte64(v: bv64, b: bv8, n: nat)
    requires v as int == n && n < 0x100_0000_0000_0000
    ensures ((v << 8) | b as bv64) as int == n * 256 + b as int
  {
  }

  /** The same on a `uint32_t` below 2^24. */
  lemma ShiftInByte32(v: bv32, b: bv8, n: nat)
    requires v as int == n && n < 0x100_0000
    ensures ((v << 8) | b as bv32) as int == n * 256 + b as int
  {
  }

  /** The loop of `storeData` on the `uint64_t` a 64-bit file's fields are
      read into, in that type's arithmetic. */
  function FoldBits64(buf: seq<bv8>, i: nat, last: nat, value: bv64): bv64
    requires i <= last < |buf|
    decreases last - i
  {
    if i == last then value | buf[last] as bv64
    else FoldBits64(buf, i + 1, last, (value | buf[i] as bv64) << 8)
  }

  /** One pass of the `uint64_t` loop: shifting in a byte after fewer
      than 8 bytes extends the big-endian number by that byte. */
  lemma ShiftInBigEndian64(p: seq<bv8>, x: bv8, y: bv64)
    requires |p| < 8 && y as int == BigEndian(p)
    ensures ((y << 8) | x as bv64) as int == BigEndian(p + [x])
  {
    var n := BigEndian(p);
    FewBytesBelow(p, 7);
    Pow256Values();
    ShiftInByte64(y, x, n);
    BigEndianSnoc(p, x);
  }

  /** The pass of the `uint64_t` loop at byte `i`, with the bytes from
      `start` read so far. */
  lemma ReadByte64(buf: seq<bv8>, start: nat, i: nat, y: bv64)
    requires start <= i < |buf| && i - start < 8
    requires y as int == BigEndian(buf[start..i])
    ensures ((y << 8) | buf[i] as bv64) as int == BigEndian(buf[start..i + 1])
  {
    ShiftInBigEndian64(buf[start..i], buf[i], y);
    assert buf[start..i + 1] == buf[start..i] + [buf[i]];
  }

  /** A pass of the `uint64_t` loop before the last byte. */
  lemma FoldBits64Unfold(buf: seq<bv8>, i: nat, last: nat, y: bv64)
    requires i < last < |buf|
    ensures FoldBits64(buf, i, last, y << 8) == FoldBits64(buf, i + 1, last, ((y << 8) | buf[i] as bv64) << 8)
  {
  }

  /** The final `value |= last` of the `uint64_t` loop. */
  lemma FoldBits64Last(buf: seq<bv8>, last: nat, y: bv64)
    requires last < |buf|
    ensures FoldBits64(buf, last, last, y << 8) == (y << 8) | buf[last] as bv64
  {
  }

  /** Midway through the `uint64_t` loop the value is the bytes read so far
      shifted one byte up, with no bit lost while at most eight are read. */
  lemma {:induction false} FoldBits64ReadsBigEndian(buf: seq<bv8>, start: nat, i: nat, last: nat, y: bv64)
    requires start <= i <= last < |buf| && last - start < 8
    requires y as int == BigEndian(buf[start..i])
    ensures FoldBits64(buf, i, last, y << 8) as int == BigEndian(buf[start..last + 1])
    decreases last - i
  {
    ReadByte64(buf, start, i, y);
    if i < last {
      FoldBits64Unfold(buf, i, last, y);
      FoldBits64ReadsBigEndian(buf, start, i + 1, last, (y << 8) | buf[i] as bv64);
    } else {
      FoldBits64Last(buf, last, y);
    }
  }

  /** Up to eight bytes read into a `uint64_t` from zero give `StoredValue`. */
  lemma StoreDataBits64(buf: seq<bv8>, start: nat, count: nat)
    requires 1 <= count <= 8 && start + count <= |buf|
    ensures FoldBits64(buf, start, start + count - 1, 0) as int == StoredValue(buf, start, count)
  {
    assert buf[start..start] == [];
    FoldBits64ReadsBigEndian(buf, start, start, start + count - 1, 0);
  }

  /** The loop of `storeData` on the `uint32_t` a 32-bit file's fields (and
      the flags) are read into. */
  function FoldBits32(buf: seq<bv8>, i: nat, last: nat, value: bv32): bv32
    requires i <= last < |buf|
    decreases last - i
  {
    if i == last then value | buf[last] as bv32
    else FoldBits32(buf, i + 1, last, (value | buf[i] as bv32) << 8)
  }

  /** One pass of the `uint32_t` loop: shifting in a byte after fewer
      than 4 bytes extends the big-endian number by that byte. */
  lemma ShiftInBigEndian32(p: seq<bv8>, x: bv8, y: bv32)
    requires |p| < 4 && y as int == BigEndian(p)
    ensures ((y << 8) | x as bv32) as int == BigEndian(p + [x])
  {
    var n := BigEndian(p);
    FewBytesBelow(p, 3);
    Pow256Values();
    ShiftInByte32(y, x, n);
    BigEndianSnoc(p, x);
  }

  /** The pass of the `uint32_t` loop at byte `i`, with the bytes from
      `start` read so far. */
  lemma ReadByte32(buf: seq<bv8>, start: nat, i: nat, y: bv32)
    requires start <= i < |buf| && i - start < 4
    requires y as int == BigEndian(buf[start..i])
    ensures ((y << 8) | buf[i] as bv32) as int == BigEndian(buf[start..i + 1])
  {
    ShiftInBigEndian32(buf[start..i], buf[i], y);
    assert buf[start..i + 1] == buf[start..i] + [buf[i]];
  }

  /** A pass of the `uint32_t` loop before the last byte. */
  lemma FoldBits32Unfold(buf: seq<bv8>, i: nat, last: nat, y: bv32)
    requires i < last < |buf|
    ensures FoldBits32(buf, i, last, y << 8) == FoldBits32(buf, i + 1, last, ((y << 8) | buf[i] as bv32) << 8)
  {
  }

  /** The final `value |= last` of the `uint32_t` loop. */
  lemma FoldBits32Last(buf: seq<bv8>, last: nat, y: bv32)
    requires last < |buf|
    ensures FoldBits32(buf, last, last, y << 8) == (y << 8) | buf[last] as bv32
  {
  }

  /** Midway through the `uint32_t` loop, with at most four bytes read. */
  lemma {:induction false} FoldBits32ReadsBigEndian(buf: seq<bv8>, start: nat, i: nat, last: nat, y: bv32)
    requires start <= i <= last < |buf| && last - start < 4
    requires y as int == BigEndian(buf[start..i])
    ensures FoldBits32(buf, i, last, y << 8) as int == BigEndian(buf[start..last + 1])
    decreases last - i
  {
    ReadByte32(buf, start, i, y);
    if i < last {
      FoldBits32Unfold(buf, i, last, y);
      FoldBits32ReadsBigEndian(buf, start, i + 1, last, (y << 8) | buf[i] as bv32);
    } else {
      FoldBits32Last(buf, last, y);
    }
  }

  /** Up to four bytes read into a `uint32_t` from zero give `StoredValue`. */
  lemma StoreDataBits32(buf: seq<bv8>, start: nat, count: nat)
    requires 1 <= count <= 4 && start + count <= |buf|
    ensures FoldBits32(buf, start, start + count - 1, 0) as int == StoredValue(buf, start, count)
  {
    assert buf[start..start] == [];
    FoldBits32ReadsBigEndian(buf, start, start, start + count - 1, 0);
  }
}
