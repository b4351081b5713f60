/** `readImageFile`: an LC-3 image is a big-endian origin word followed by
    big-endian data words, copied into memory from the origin upward. The
    file is the byte sequence `image`; the host is little-endian, so the
    words `fread` produces are byte-swapped back with `toLittleEndian16`. */
module Lc3Loader {
  import opened Wrappers
  import opened Lc3Defs
  import opened Bytes

  /** An image too short to hold the origin word. The emulator goes on with
      an indeterminate origin; the model stops. */
  datatype LoadError = MissingOrigin

  /** The number of whole data words after the origin. A trailing odd byte
      is not part of any of them: C's `fread` reads it as a partial element,
      whose value ISO C leaves indeterminate, and the model does not load
      it. */
  function DataWords(image: seq<bv8>): nat
    requires |image| >= 2
  {
    (|image| - 2) / 2
  }

  /** The origin word of the image, stored big-endian in its first two
      bytes. A little-endian host reads bytes b0, b1 as Word16(b1, b0); the
      swap puts b0 back on top. */
  function Origin(image: seq<bv8>): (origin: bv16)
    requires |image| >= 2
    ensures origin == Word16(image[0], image[1])
  {
    SwapExchangesBytes(image[1], image[0]);
    Swap16(Word16(image[1], image[0]))
  }

  /** The origin as a cell index. */
  function Base(image: seq<bv8>): (b: nat)
    requires |image| >= 2
    ensures b <= MemoryCells
  {
    Origin(image) as int
  }

  /** Data word `i` of the image, stored big-endian at bytes 2 + 2i and
      3 + 2i. */
  function DataWord(image: seq<bv8>, i: nat): (w: bv16)
    requires |image| >= 2 && i < DataWords(image)
    ensures w == Word16(image[2 + 2 * i], image[3 + 2 * i])
  {
    SwapExchangesBytes(image[3 + 2 * i], image[2 + 2 * i]);
    Swap16(Word16(image[3 + 2 * i], image[2 + 2 * i]))
  }

  /** `maxRead = UINT16_MAX - origin` caps the words read, so the copy never
      reaches past the last cell of the array. */
  function WordsLoaded(image: seq<bv8>): (n: nat)
    requires |image| >= 2
    ensures n <= DataWords(image)
    ensures Base(image) + n <= MemoryCells
    ensures n == DataWords(image) || Base(image) + n == MemoryCells
  {
    var maxRead := UInt16Max - Base(image);
    if DataWords(image) < maxRead then DataWords(image) else maxRead
  }

  /** Cell `k` after loading `image` over `mem`: data word k - origin inside
      the loaded range, the old cell elsewhere. */
  function LoadedCell(mem: Memory, image: seq<bv8>, k: int): bv16
    requires |image| >= 2 && 0 <= k <= MemoryCells
  {
    if Base(image) <= k < Base(image) + WordsLoaded(image) then DataWord(image, k - Base(image)) else mem[k]
  }

  /** The memory after loading `image` over `mem`, or the error for an image
      without an origin. */
  function LoadImage(mem: Memory, image: seq<bv8>): (r: Result<Memory, LoadError>)
    ensures r.Err? <==> |image| < 2
  {
    if |image| < 2 then Err(MissingOrigin)
    else Ok(seq(MemoryCells + 1, k requires 0 <= k <= MemoryCells => LoadedCell(mem, image, k)))
  }

  /** Reading back cell origin + i gives data word i of the image, read
      big-endian: its high byte is image byte 2 + 2i. */
  lemma LoadImagePlacesWords(mem: Memory, image: seq<bv8>, i: nat)
    requires |image| >= 2 && i < WordsLoaded(image)
    ensures LoadImage(mem, image).Ok?
    ensures LoadImage(mem, image).value[Base(image) + i] == Word16(image[2 + 2 * i], image[3 + 2 * i])
  {
    var w := DataWord(image, i);
    assert LoadImage(mem, image).value[Base(image) + i] == LoadedCell(mem, image, Base(image) + i) == w;
  }

  /** Every cell outside the loaded range keeps its old value. */
  lemma LoadImageKeepsOtherCells(mem: Memory, image: seq<bv8>, k: int)
    requires |image| >= 2 && 0 <= k <= MemoryCells
    requires !(Base(image) <= k < Base(image) + WordsLoaded(image))
    ensures LoadImage(mem, image).Ok?
    ensures LoadImage(mem, image).value[k] == mem[k]
  {
    assert LoadImage(mem, image).value[k] == LoadedCell(mem, image, k);
  }

  /** `cells` holds the first `n` loaded words from the origin on and the
      old contents everywhere else: the state of the copy loop after `n`
      words. */
  predicate LoadedUpTo(mem: Memory, image: seq<bv8>, cells: Memory, n: nat)
    requires |image| >= 2 && n <= WordsLoaded(image)
  {
    forall k :: 0 <= k <= MemoryCells ==>
      cells[k] == if Base(image) <= k < Base(image) + n then DataWord(image, k - Base(image)) else mem[k]
  }

  /** Storing the next word extends the loaded prefix by one. */
  lemma LoadedUpToStep(mem: Memory, image: seq<bv8>, cells: Memory, n: nat)
    requires |image| >= 2 && n < WordsLoaded(image) && LoadedUpTo(mem, image, cells, n)
    ensures LoadedUpTo(mem, image, cells[Base(image) + n := DataWord(image, n)], n + 1)
  {
  }

  /** Once every word is stored, the cells are the loaded memory. */
  lemma LoadedUpToAll(mem: Memory, image: seq<bv8>, cells: Memory)
    requires |image| >= 2 && LoadedUpTo(mem, image, cells, WordsLoaded(image))
    ensures LoadImage(mem, image) == Ok(cells)
  {
    assert forall k :: 0 <= k <= MemoryCells ==> cells[k] == LoadedCell(mem, image, k);
    assert cells == LoadImage(mem, image).value;
  }

  /** The origin as the loader computes it: the raw little-endian word,
      swapped. */
  lemma SwappedOrigin(image: seq<bv8>)
    requires |image| >= 2
    ensures Swap16(Word16(image[1], image[0])) as int == Base(image)
  {
  }

  /** Data word `i` as the loader computes it: the raw little-endian word,
      swapped in place. */
  lemma SwappedDataWord(image: seq<bv8>, i: nat)
    requires |image| >= 2 && i < DataWords(image)
    ensures Swap16(Word16(image[3 + 2 * i], image[2 + 2 * i])) == DataWord(image, i)
  {
  }

  /** The copy loop of `readImageFile`: `fread` places up to `maxRead` raw
      words at the origin, and each is then swapped in place. */
  method ReadImageFile(mem: Memory, image: seq<bv8>) returns (r: Result<Memory, LoadError>)
    ensures r == LoadImage(mem, image)
  {
    if |image| < 2 {
      return Err(MissingOrigin);
    }
    SwappedOrigin(image);
    var origin := Swap16(Word16(image[1], image[0])) as int;
    var maxRead := UInt16Max - origin;
    var read := if DataWords(image) < maxRead then DataWords(image) else maxRead;
    assert read == WordsLoaded(image);
    var cells: Memory := mem;
    var i := 0;
    while i < read
      invariant 0 <= i <= read
      invariant LoadedUpTo(mem, image, cells, i)
    {
      SwappedDataWord(image, i);
      LoadedUpToStep(mem, image, cells, i);
      cells := cells[origin + i := Swap16(Word16(image[3 + 2 * i], image[2 + 2 * i]))];
      i := i + 1;
    }
    LoadedUpToAll(mem, image, cells);
    return Ok(cells);
  }
}
