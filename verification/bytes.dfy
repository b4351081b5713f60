/** Byte-level helpers shared by the LC-3 image loader and the ELF header
    decoder: the 16-bit byte swap both programs define, the 16-bit word
    built from two bytes, and big-endian numbers of any width. */
module Bytes {

  /** `toLittleEndian16` (LC-3 loader) and `swap16` (ELF decoder): exchanges
      the two bytes of a word. */
  function Swap16(x: bv16): (r: bv16)
    ensures r >> 8 == x & 0xFF && r & 0xFF == x >> 8
  {
    (x << 8) | (x >> 8)
  }

  /** Swapping twice restores the word. */
  lemma Swap16Involution(x: bv16)
    ensures Swap16(Swap16(x)) == x
  {
  }

  /** The two worked values in the comment of `swap16`. */
  lemma Swap16Examples()
    ensures Swap16(0x4000) == 0x0040
    ensures Swap16(0x3875) == 0x7538
  {
  }

  /** The word whose high byte is `hi` and low byte is `lo`. */
  function Word16(hi: bv8, lo: bv8): (w: bv16)
    ensures w >> 8 == hi as bv16 && w & 0xFF == lo as bv16
  {
    ((hi as bv16) << 8) | (lo as bv16)
  }

  /** The high byte of `w`. */
  function HighByte(w: bv16): bv8 {
    (w >> 8) as bv8
  }

  /** The low byte of `w`. */
  function LowByte(w: bv16): bv8 {
    (w & 0xFF) as bv8
  }

  /** A word is rebuilt from its two bytes ... */
  lemma Word16OfBytes(w: bv16)
    ensures Word16(HighByte(w), LowByte(w)) == w
  {
  }

  /** ... and a word built from two bytes splits back into them. */
  lemma BytesOfWord16(hi: bv8, lo: bv8)
    ensures HighByte(Word16(hi, lo)) == hi && LowByte(Word16(hi, lo)) == lo
  {
  }

  /** The word of the bytes `hi` and `lo` of `w` is `w`. */
  lemma Word16FromBytes(hi: bv8, lo: bv8, w: bv16)
    requires hi == HighByte(w) && lo == LowByte(w)
    ensures Word16(hi, lo) == w
  {
    Word16OfBytes(w);
  }

  /** `x` occurs in `s` starting at index `lo`. */
  predicate PlacedAt(s: seq<bv8>, lo: int, x: seq<bv8>) {
    0 <= lo && lo + |x| <= |s| && s[lo..lo + |x|] == x
  }

  /** `a` starts `a + b`. */
  lemma PlacedFirst(a: seq<bv8>, b: seq<bv8>)
    ensures PlacedAt(a + b, 0, a)
  {
    assert (a + b)[..|a|] == a;
  }

  /** What occurs in `b` occurs in `a + b`, moved past `a`. */
  lemma PlacedAfter(a: seq<bv8>, b: seq<bv8>, lo: int, x: seq<bv8>)
    requires PlacedAt(b, lo, x)
    ensures PlacedAt(a + b, |a| + lo, x)
  {
    assert (a + b)[|a| + lo..|a| + lo + |x|] == b[lo..lo + |x|];
  }

  /** What occurs in `a` occurs in `a + b` at the same index. */
  lemma PlacedBefore(a: seq<bv8>, b: seq<bv8>, lo: int, x: seq<bv8>)
    requires PlacedAt(a, lo, x)
    ensures PlacedAt(a + b, lo, x)
  {
    assert (a + b)[lo..lo + |x|] == a[lo..lo + |x|];
  }

  /** Swapping a word exchanges the bytes it was built from. */
  lemma SwapExchangesBytes(hi: bv8, lo: bv8)
    ensures Swap16(Word16(hi, lo)) == Word16(lo, hi)
  {
  }

  /** 256 to the power `n`: one more than the largest `n`-byte number. */
  function Pow256(n: nat): (p: nat)
    ensures p >= 1
  {
    if n == 0 then 1 else 256 * Pow256(n - 1)
  }

  /** The number the bytes `b` spell most significant byte first. */
  function BigEndian(b: seq<bv8>): nat {
    if |b| == 0 then 0 else BigEndian(b[..|b| - 1]) * 256 + b[|b| - 1] as nat
  }

  /** Appending a byte shifts the number one byte up and adds the byte. */
  lemma BigEndianSnoc(p: seq<bv8>, x: bv8)
    ensures BigEndian(p + [x]) == BigEndian(p) * 256 + x as nat
  {
    assert (p + [x])[..|p|] == p;
  }

  /** An `n`-byte big-endian number is below 256^n: a 4-byte field fits a
      `uint32_t` and an 8-byte field a `uint64_t`, with nothing shifted out. */
  lemma {:induction false} BigEndianBound(b: seq<bv8>)
    ensures BigEndian(b) < Pow256(|b|)
    decreases |b|
  {
    if |b| > 0 {
      BigEndianBound(b[..|b| - 1]);
      assert BigEndian(b[..|b| - 1]) + 1 <= Pow256(|b| - 1);
      assert BigEndian(b) < (BigEndian(b[..|b| - 1]) + 1) * 256;
    }
  }

  /** The `n` bytes that spell `v` most significant byte first (of a `v`
      below 256^n; of a larger one, its low `n` bytes). */
  function ToBigEndian(v: nat, n: nat): (r: seq<bv8>)
    ensures |r| == n
  {
    if n == 0 then [] else ToBigEndian(v / 256, n - 1) + [(v % 256) as bv8]
  }

  /** A number below 256 survives the trip through a byte. */
  lemma ByteRoundTrip(x: nat)
    requires x < 256
    ensures (x as bv8) as nat == x
  {
    if x < 16 {
    } else if x < 128 {
    } else {
    }
  }

  /** Reading back written bytes gives the number. */
  lemma {:induction false} BigEndianOfToBigEndian(v: nat, n: nat)
    requires v < Pow256(n)
    ensures BigEndian(ToBigEndian(v, n)) == v
    decreases n
  {
    if n > 0 {
      BigEndianOfToBigEndian(v / 256, n - 1);
      BigEndianSnoc(ToBigEndian(v / 256, n - 1), (v % 256) as bv8);
      ByteRoundTrip(v % 256);
    }
  }

  /** Writing back a read number gives the bytes. */
  lemma {:induction false} ToBigEndianOfBigEndian(b: seq<bv8>)
    ensures BigEndian(b) < Pow256(|b|)
    ensures ToBigEndian(BigEndian(b), |b|) == b
    decreases |b|
  {
    BigEndianBound(b);
    if |b| > 0 {
      var p, x := b[..|b| - 1], b[|b| - 1];
      ToBigEndianOfBigEndian(p);
      assert BigEndian(b) / 256 == BigEndian(p);
      assert (BigEndian(b) % 256) as bv8 == x;
      assert b == p + [x];
    }
  }

  /** Fewer bytes spell smaller numbers: 256^n is at most 256^m for n <= m. */
  lemma {:induction false} Pow256Monotone(n: nat, m: nat)
    requires n <= m
    ensures Pow256(n) <= Pow256(m)
    decreases m
  {
    if n < m {
      Pow256Monotone(n, m - 1);
    }
  }

  /** A number of at most `n` bytes is below 256^n. */
  lemma FewBytesBelow(b: seq<bv8>, n: nat)
    requires |b| <= n
    ensures BigEndian(b) < Pow256(n)
  {
    BigEndianBound(b);
    Pow256Monotone(|b|, n);
  }

  /** The bounds of three and seven bytes. */
  lemma Pow256Values()
    ensures Pow256(3) == 0x100_0000
    ensures Pow256(7) == 0x100_0000_0000_0000
  {
  }
}
