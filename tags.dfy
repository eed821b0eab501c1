/**
 * Boundary-tag codec of mm.c: the alignment rounding, the packing of a
 * (size, allocated-bit) pair into one 4-byte tag word, and the address
 * arithmetic that finds a block's header, footer and neighbours.
 *
 * Tag words are unsigned 32-bit values. The source's bit masks are written
 * as their arithmetic equivalents on such values:
 *   x & ~0x7 == x - x % 8,   x & 0x1 == x % 2,
 *   s | a    == s + a          when s % 8 == 0 and a is 0 or 1.
 */
module Tags {
  const WSIZE: int := 4          // one tag or link word
  const DSIZE: int := 8          // header plus footer
  const ALIGNMENT: int := 8
  const CHUNKSIZE: int := 128    // 1 << 7, the default growth in bytes
  const MIN_BLOCK: int := 16     // header, footer and two link words
  const WORD_LIMIT: int := 0x1_0000_0000

  /** An `unsigned int` as stored by PUT. */
  type Word = x: int | 0 <= x < 0x1_0000_0000

  /** ALIGN: round up to a multiple of ALIGNMENT. */
  function Align(n: nat): (r: nat)
    ensures r % ALIGNMENT == 0
    ensures n <= r < n + ALIGNMENT
  {
    (n + (ALIGNMENT - 1)) / ALIGNMENT * ALIGNMENT
  }

  /** ALIGN(n) is the least multiple of ALIGNMENT that is at least n. */
  lemma AlignLeast(n: nat, m: int)
    requires m % ALIGNMENT == 0 && n <= m
    ensures Align(n) <= m
  {
    var d := m - Align(n);
    DiffAligned(m, Align(n));
    assert d == ALIGNMENT * (d / ALIGNMENT);
    assert d > -ALIGNMENT;
  }

  /** PACK: the size in the high bits, the allocated bit in bit 0. */
  function Pack(size: Word, alloc: Word): (w: Word)
    requires size % 8 == 0 && alloc <= 1
    ensures GetSize(w) == size && GetAlloc(w) == alloc
    ensures w % 8 <= 1
  {
    size + alloc
  }

  /** GET_SIZE: the tag with its three low bits cleared. */
  function GetSize(w: Word): (s: Word)
    ensures s % 8 == 0 && s <= w < s + 8
  {
    w - w % 8
  }

  /** GET_ALLOC: bit 0 of the tag. */
  function GetAlloc(w: Word): (a: Word)
    ensures a <= 1
    ensures a == 1 <==> w % 2 == 1
  {
    w % 2
  }

  /** HDPR: the header sits one word before the payload. */
  function HdrAddr(p: int): int { p - WSIZE }

  /** FTPR: the footer sits in the last word of a block of `size` bytes. */
  function FtrAddr(p: int, size: int): int { p + size - DSIZE }

  /** NEXT_BLPR: the next block's payload follows this block's `size` bytes. */
  function NextAddr(p: int, size: int): int { p + size }

  /** PREV_BLPR: the previous block's size is read from its footer at p - DSIZE. */
  function PrevAddr(p: int, prevSize: int): int { p - prevSize }

  /** The difference of two multiples of 8 is one too. */
  lemma DiffAligned(a: int, b: int)
    requires a % 8 == 0 && b % 8 == 0
    ensures (a - b) % 8 == 0
  {
  }

  /** The sum of two multiples of 8 is one too. */
  lemma SumAligned(a: int, b: int)
    requires a % 8 == 0 && b % 8 == 0
    ensures (a + b) % 8 == 0
  {
  }

  /** A header and footer pair brackets exactly `size` bytes, and the next
      block's header immediately follows the footer. */
  lemma TagsBracketBlock(p: int, size: int)
    requires size % 8 == 0 && size >= DSIZE
    ensures FtrAddr(p, size) + WSIZE - HdrAddr(p) == size
    ensures HdrAddr(NextAddr(p, size)) == FtrAddr(p, size) + WSIZE
    ensures HdrAddr(p) < FtrAddr(p, size) || size == DSIZE
  {
  }

  /** malloc's adjusted size ALIGN(size + DSIZE) leaves at least `size`
      payload bytes besides header and footer. */
  lemma AdjustedCoversRequest(size: nat)
    ensures Align(size + DSIZE) % ALIGNMENT == 0
    ensures Align(size + DSIZE) - DSIZE >= size
  {
  }
}
