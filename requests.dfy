/**
 * The byte counts the public operations derive from their arguments:
 * malloc's adjusted block size, extend_heap's rounding to an even number of
 * words, realloc's copy length and calloc's product. For the three that
 * mm.c gets wrong, the computation as written sits beside the corrected one
 * the allocator uses, with the input that tells them apart.
 */
module Requests {
  import opened Wrappers
  import opened Tags
  import opened Layout

  /** One past the largest size_t. */
  const SIZE_LIMIT: int := 0x1_0000_0000_0000_0000

  function Max(a: int, b: int): int { if a < b then b else a }

  function Min(a: int, b: int): int { if a < b then a else b }

  // ------------------------------------------------------------- malloc

  /** malloc's block size as written: ALIGN(size + DSIZE). */
  function AdjustedSizeAsWritten(size: nat): nat
  {
    Align(size + DSIZE)
  }

  /** malloc's block size as intended: room for the header, the footer and
      size payload bytes, and never smaller than the MIN_BLOCK bytes a free
      block needs for its two link words. */
  function AdjustedSize(size: nat): (r: nat)
    ensures r % ALIGNMENT == 0 && MIN_BLOCK <= r && size + DSIZE <= r
  {
    Max(Align(size + DSIZE), MIN_BLOCK)
  }

  /** AdjustedSize is the least block size that does the job: any multiple
      of 8 that holds header, footer and payload and a block's two links is
      at least as large. */
  lemma AdjustedSizeLeast(size: nat, m: int)
    requires m % ALIGNMENT == 0 && m >= size + DSIZE && m >= MIN_BLOCK
    ensures AdjustedSize(size) <= m
  {
    AlignLeast(size + DSIZE, m);
  }

  /** The two block sizes differ only for malloc(0). */
  lemma AdjustedSizeAgrees(size: nat)
    ensures AdjustedSizeAsWritten(size) == AdjustedSize(size) <==> size > 0
  {
    if size > 0 {
      assert Align(size + DSIZE) >= size + DSIZE >= 9;
      assert Align(size + DSIZE) % ALIGNMENT == 0;
    } else {
      assert Align(DSIZE) == DSIZE;
    }
  }

  /** malloc(0) as written asks place for an 8-byte block. Such a block has
      no room for its links: its successor word is its own footer and its
      predecessor word is the next block's header. Once it is freed
      while both its neighbours are allocated (coalesce's first case, for
      instance after mm_init, malloc(0) and malloc(112)), add_list writes
      0 into that header (the next block then reads as free with size 0)
      and the old list head into the footer. */
  lemma TinyBlockAsWritten(h: seq<Word>, base: int, fl: seq<int>, p: int)
    requires ListOk(h, base, fl) && 0 <= base && base + 16 <= p && p + 8 <= |h| <= WORD_LIMIT
    requires forall i :: 0 <= i < |fl| ==> p + 8 <= fl[i] || fl[i] + 8 <= p
    ensures AdjustedSizeAsWritten(0) == DSIZE < MIN_BLOCK
    ensures var h2 := AddListWrites(h, base, fl, p);
      FtrAddr(p, DSIZE) == p && HdrAddr(NextAddr(p, DSIZE)) == p + WSIZE &&
      h2[HdrAddr(NextAddr(p, DSIZE))] == 0 && GetSize(h2[p + WSIZE]) == 0 && GetAlloc(h2[p + WSIZE]) == 0 &&
      h2[FtrAddr(p, DSIZE)] == At(h, base)
  {
    assert Align(DSIZE) == DSIZE;
    var h1 := h[p + 4 := 0][p := At(h, base)][base := p - base];
    assert h1[p + 4] == 0 && h1[p] == At(h, base);
    var h2 := AddListWrites(h, base, fl, p);
    if fl == [] {
      assert h2 == h1;
    } else {
      assert p + 8 <= fl[0] || fl[0] + 8 <= p;
      assert h2 == h1[fl[0] + 4 := p - base];
    }
    assert h2[p + 4] == 0 && h2[p] == At(h, base);
  }

  // -------------------------------------------------------- extend_heap

  /** extend_heap's byte count: the word count rounded up to an even number,
      times WSIZE. It is the least multiple of 8 bytes holding that many
      words. */
  function ExtendBytes(words: nat): (size: nat)
    ensures size % DSIZE == 0
    ensures words * WSIZE <= size < words * WSIZE + DSIZE
  {
    if words % 2 == 1 then (words + 1) * WSIZE else words * WSIZE
  }

  /** The byte count malloc asks extend_heap for covers the adjusted size. */
  lemma ExtendCovers(asize: nat)
    requires asize % ALIGNMENT == 0
    ensures var size := ExtendBytes(Max(asize, CHUNKSIZE) / WSIZE);
      asize <= size && CHUNKSIZE <= size && size == Max(asize, CHUNKSIZE)
  {
    var m := Max(asize, CHUNKSIZE);
    assert m % 8 == 0;
    assert m / WSIZE * WSIZE == m;
    assert (m / WSIZE) % 2 == 0;
  }

  // ------------------------------------------------------------ realloc

  /** SIZE_PTR(p) as written: the 8-byte size_t at p - 8, read little-endian.
      Its low half is the word at p - 8 (the previous block's footer, or the
      prologue's), its high half the word at p - 4 (p's own header). */
  ghost function SizePtrAsWritten(h: seq<Word>, p: int): nat
  {
    At(h, p - DSIZE) + WORD_LIMIT * At(h, HdrAddr(p))
  }

  /** realloc's copy length as written: SIZE_PTR(oldptr), cut down to size. */
  ghost function CopyLenAsWritten(h: seq<Word>, p: int, size: nat): nat
  {
    Min(SizePtrAsWritten(h, p), size)
  }

  /** For any block and any request the heap could satisfy, the length read
      as written is the request itself: a header is never 0, so SIZE_PTR is
      at least 2^32. When the request is larger than p's payload, memcpy
      reads past p's footer. */
  lemma CopyLenAsWrittenOverreads(h: seq<Word>, base: int, brk: int, blocks: seq<int>, p: int, size: nat)
    requires Tiled(h, base, brk, blocks) && p in blocks && size < WORD_LIMIT
    ensures CopyLenAsWritten(h, p, size) == size
    ensures size > Sz(h, p) - DSIZE ==> p + CopyLenAsWritten(h, p, size) > FtrAddr(p, Sz(h, p))
  {
    BlockBounds(h, base, brk, blocks, p);
    assert At(h, HdrAddr(p)) >= 1;
  }

  /** realloc's copy length as intended: the old payload, cut down to size. */
  ghost function CopyLen(h: seq<Word>, p: int, size: nat): (n: int)
    ensures n <= size && n <= Sz(h, p) - DSIZE
    ensures n == size || n == Sz(h, p) - DSIZE
  {
    Min(Sz(h, p) - DSIZE, size)
  }

  /** The two lengths agree exactly when the request fits in p's payload. */
  lemma CopyLenAgrees(h: seq<Word>, base: int, brk: int, blocks: seq<int>, p: int, size: nat)
    requires Tiled(h, base, brk, blocks) && p in blocks && size < WORD_LIMIT
    ensures CopyLen(h, p, size) == CopyLenAsWritten(h, p, size) <==> size <= Sz(h, p) - DSIZE
  {
    CopyLenAsWrittenOverreads(h, base, brk, blocks, p, size);
  }

  /** The number of whole words memcpy moves for n bytes. */
  function WordsFor(n: nat): (w: nat)
    ensures n <= w * WSIZE < n + WSIZE
  {
    (n + WSIZE - 1) / WSIZE
  }

  /** Whole words for n bytes stay within the payload of a block of s
      bytes that holds n bytes. */
  lemma WordsForFits(n: nat, s: int)
    requires n <= s - DSIZE && s % ALIGNMENT == 0
    ensures WSIZE * WordsFor(n) <= s - DSIZE
  {
    var m := s - DSIZE;
    assert m % WSIZE == 0;
    assert (n + WSIZE - 1) / WSIZE <= (m + WSIZE - 1) / WSIZE == m / WSIZE;
  }

  // ------------------------------------------------------------- calloc

  /** calloc's byte count as written: nmemb * size in size_t arithmetic. */
  function CallocBytesAsWritten(nmemb: nat, size: nat): nat
  {
    (nmemb * size) % SIZE_LIMIT
  }

  /** The product wraps: 2^32 elements of 2^32 bytes ask malloc for 0 bytes,
      and memset then clears none of the 2^64 the caller expects. */
  lemma CallocBytesAsWrittenWraps()
    ensures CallocBytesAsWritten(0x1_0000_0000, 0x1_0000_0000) == 0
  {
    assert 0x1_0000_0000 * 0x1_0000_0000 == SIZE_LIMIT;
  }

  /** calloc's byte count as intended: the product, or None when it does not
      fit in a size_t. */
  function CallocBytes(nmemb: nat, size: nat): (r: Option<nat>)
    ensures r.Some? <==> nmemb * size < SIZE_LIMIT
    ensures r.Some? ==> r.value == nmemb * size
  {
    if nmemb * size < SIZE_LIMIT then Some(nmemb * size) else None
  }

  /** Where the product fits, the two agree. */
  lemma CallocBytesAgrees(nmemb: nat, size: nat)
    ensures CallocBytes(nmemb, size).Some? <==> CallocBytes(nmemb, size) == Some(CallocBytesAsWritten(nmemb, size))
  {
  }
}
