/**
 * What the public operations promise their callers, stated over the heap
 * before and after a call, and the lemmas that carry those promises across
 * the steps an operation takes.
 */
module Promises {
  import opened Wrappers
  import opened Tags
  import opened Layout
  import opened Requests
  import opened Retile
  import opened Coalescing
  import opened Release

  /** What malloc(size) promises, from the heap h0 with blocks b0 and list
      fl0 to the heap h with blocks `blocks`. A result p is a block newly
      allocated, of the adjusted size or less than MIN_BLOCK bytes larger,
      and the first listed block that was large enough when there was one;
      None means no listed block was large enough (and the region could not
      grow), and then nothing changed. Either way the blocks allocated
      before are untouched. */
  ghost predicate Malloced(h0: seq<Word>, b0: seq<int>, fl0: seq<int>, h: seq<Word>, blocks: seq<int>,
                           size: nat, r: Option<int>)
  {
    var asize := AdjustedSize(size);
    var k := FirstFit(h0, fl0, asize);
    AllocKept(h0, h, b0) &&
    match r
    case None => k == |fl0| && h == h0 && blocks == b0
    case Some(p) =>
      p in blocks && !IsFree(h, p) && p !in AllocSet(h0, b0) &&
      AllocSet(h, blocks) == AllocSet(h0, b0) + {p} &&
      asize <= Sz(h, p) < asize + MIN_BLOCK &&
      (k < |fl0| ==> p == fl0[k])
  }

  /** place's promise on a free block p of the heap h1, reached from h0
      by changes that kept every allocated block: the block p is now
      allocated, holding `asize` bytes or the whole block when the rest
      would be smaller than MIN_BLOCK, and nothing else allocated moved. */
  ghost predicate Placed(h1: seq<Word>, b1: seq<int>, h: seq<Word>, blocks: seq<int>, asize: int, p: int)
  {
    p in blocks && !IsFree(h, p) &&
    (if Sz(h1, p) - asize < MIN_BLOCK then Sz(h, p) == Sz(h1, p) else Sz(h, p) == asize) &&
    AllocSet(h, blocks) == AllocSet(h1, b1) + {p} && AllocKept(h1, h, b1)
  }

  /** malloc's promise once place is done on a block p that was free in
      h1 and at least the adjusted size: whether p was found on the list
      (h1 == h0) or made by extend_heap (which kept the allocated blocks). */
  lemma MallocDone(h0: seq<Word>, b0: seq<int>, fl0: seq<int>, base: int, brk0: int,
                   h1: seq<Word>, b1: seq<int>, h: seq<Word>, blocks: seq<int>, size: nat, p: int)
    requires Tiled(h0, base, brk0, b0)
    requires AllocKept(h0, h1, b0) && AllocSet(h1, b1) == AllocSet(h0, b0)
    requires p in b1 && IsFree(h1, p) && AdjustedSize(size) <= Sz(h1, p)
    requires Placed(h1, b1, h, blocks, AdjustedSize(size), p)
    requires FirstFit(h0, fl0, AdjustedSize(size)) < |fl0| ==> p == fl0[FirstFit(h0, fl0, AdjustedSize(size))]
    ensures Malloced(h0, b0, fl0, h, blocks, size, Some(p))
  {
    KeptChain(h0, h1, h, base, brk0, b0, b1);
  }

  /** Word i of the payload at b: the word at byte b + 4 * i. */
  ghost function PayloadWord(h: seq<Word>, b: int, i: int): Word
  {
    At(h, b + WSIZE * i)
  }

  /** The first n payload words of q in h are those of p in h0: what
      memcpy(q, p, 4 * n) leaves. */
  ghost predicate Copied(h0: seq<Word>, p: int, h: seq<Word>, q: int, n: int)
  {
    forall i :: 0 <= i < n ==> PayloadWord(h, q, i) == PayloadWord(h0, p, i)
  }

  /** The first n payload words of q are 0: what memset(q, 0, 4 * n) leaves. */
  ghost predicate Zeroed(h: seq<Word>, q: int, n: int)
  {
    forall i :: 0 <= i < n ==> PayloadWord(h, q, i) == 0
  }

  /** What a successful realloc(p, size) promises: a new block q in place
      of p, as large as malloc(size) would give, holding p's first
      CopyLen bytes (in whole words), with every other allocated block
      untouched. */
  ghost predicate Reallocated(h0: seq<Word>, b0: seq<int>, h: seq<Word>, blocks: seq<int>,
                              p: int, size: nat, q: int)
  {
    q != p && q in blocks && !IsFree(h, q) &&
    AllocSet(h, blocks) == AllocSet(h0, b0) - {p} + {q} &&
    AdjustedSize(size) <= Sz(h, q) < AdjustedSize(size) + MIN_BLOCK &&
    KeptBut(h0, h, b0, p) &&
    CopyLen(h0, p, size) >= 0 && Copied(h0, p, h, q, WordsFor(CopyLen(h0, p, size)))
  }

  /** A block whose header and span are kept twice is kept. */
  lemma SpanTrans(h0: seq<Word>, h1: seq<Word>, h2: seq<Word>, b: int)
    requires SpanSame(h0, h1, b) && SpanSame(h1, h2, b)
    requires 0 <= HdrAddr(b) < |h0| && Sz(h0, b) >= MIN_BLOCK
    ensures SpanSame(h0, h2, b)
  {
    assert InSpan(h0, b, HdrAddr(b));
    assert Sz(h1, b) == Sz(h0, b);
  }

  /** Once malloc has returned q, the block p the caller held is still
      allocated, untouched, and not q. */
  lemma MallocKeeps(h0: seq<Word>, b0: seq<int>, fl0: seq<int>, base: int, brk0: int,
                    h1: seq<Word>, b1: seq<int>, size: nat, q: int, p: int)
    requires Tiled(h0, base, brk0, b0) && p in AllocSet(h0, b0)
    requires Malloced(h0, b0, fl0, h1, b1, size, Some(q))
    ensures p != q && p in AllocSet(h1, b1) && SpanSame(h0, h1, p) && Sz(h1, p) == Sz(h0, p)
  {
    BlockBounds(h0, base, brk0, b0, p);
    var i :| 0 <= i < |b0| && b0[i] == p;
    assert SpanSame(h0, h1, b0[i]);
    assert InSpan(h0, p, HdrAddr(p));
  }

  /** The blocks realloc leaves alone, through malloc, memcpy into q and
      free(p), are untouched. */
  lemma ReallocKept(h0: seq<Word>, b0: seq<int>, base: int, brk0: int,
                    h1: seq<Word>, b1: seq<int>, h2: seq<Word>, h3: seq<Word>, p: int, q: int)
    requires Tiled(h0, base, brk0, b0)
    requires AllocKept(h0, h1, b0) && AllocSet(h0, b0) <= AllocSet(h1, b1) && q !in AllocSet(h0, b0)
    requires AllocSet(h2, b1) == AllocSet(h1, b1) && KeptBut(h1, h2, b1, q) && KeptBut(h2, h3, b1, p)
    ensures KeptBut(h0, h3, b0, p)
  {
    forall i | 0 <= i < |b0| && !IsFree(h0, b0[i]) && b0[i] != p ensures SpanSame(h0, h3, b0[i]) {
      var b := b0[i];
      BlockBounds(h0, base, brk0, b0, b);
      assert b in AllocSet(h0, b0);
      var j :| 0 <= j < |b1| && b1[j] == b;
      assert SpanSame(h1, h2, b1[j]);
      assert b in AllocSet(h2, b1);
      assert SpanSame(h2, h3, b1[j]);
      SpanTrans(h0, h1, h2, b);
      SpanTrans(h0, h2, h3, b);
    }
  }

  /** The words realloc copied reach the end unchanged: from p in h0 to
      p in h1 (malloc kept p), to q in h2 (memcpy), to q in h3 (free(p)
      kept q). */
  lemma ReallocCopied(h0: seq<Word>, h1: seq<Word>, h2: seq<Word>, h3: seq<Word>, p: int, q: int, n: nat)
    requires SpanSame(h0, h1, p) && SpanSame(h2, h3, q)
    requires Copied(h1, p, h2, q, n)
    requires 0 <= HdrAddr(p) && WSIZE * n <= Sz(h0, p) - DSIZE && 0 <= HdrAddr(q) && WSIZE * n <= Sz(h2, q) - DSIZE
    ensures Copied(h0, p, h3, q, n)
  {
    forall i | 0 <= i < n ensures PayloadWord(h3, q, i) == PayloadWord(h0, p, i) {
      var a, b := p + WSIZE * i, q + WSIZE * i;
      assert InSpan(h0, p, a) && InSpan(h2, q, b);
      assert At(h1, a) == At(h0, a);
      assert At(h3, b) == At(h2, b);
      assert PayloadWord(h2, q, i) == PayloadWord(h1, p, i);
    }
  }

  /** Two different blocks do not overlap. */
  lemma Apart(h: seq<Word>, base: int, brk: int, blocks: seq<int>, p: int, q: int)
    requires Tiled(h, base, brk, blocks) && p in blocks && q in blocks && p != q
    ensures p + Sz(h, p) <= q || q + Sz(h, q) <= p
  {
    var i :| 0 <= i < |blocks| && blocks[i] == p;
    var j :| 0 <= j < |blocks| && blocks[j] == q;
    if i < j { Ordered(h, base, brk, blocks, i, j); } else { Ordered(h, base, brk, blocks, j, i); }
  }

  /** What realloc's memcpy needs once malloc has returned q: the words
      to copy lie in p's payload and fit in q's, and the two blocks do not
      overlap. */
  lemma CopyFits(h0: seq<Word>, b0: seq<int>, fl0: seq<int>, base: int, brk0: int,
                 h1: seq<Word>, b1: seq<int>, brk1: int, size: nat, p: int, q: int)
    requires Tiled(h0, base, brk0, b0) && p in AllocSet(h0, b0)
    requires Malloced(h0, b0, fl0, h1, b1, size, Some(q)) && Tiled(h1, base, brk1, b1)
    ensures p != q && p in AllocSet(h1, b1) && 8 <= p && 8 <= q
    ensures p + Sz(h1, p) <= |h1| && q + Sz(h1, q) <= |h1|
    ensures CopyLen(h1, p, size) >= 0
    ensures WSIZE * WordsFor(CopyLen(h1, p, size)) <= Sz(h1, p) - DSIZE
    ensures WSIZE * WordsFor(CopyLen(h1, p, size)) <= Sz(h1, q) - DSIZE
    ensures p + Sz(h1, p) <= q || q + Sz(h1, q) <= p
  {
    MallocKeeps(h0, b0, fl0, base, brk0, h1, b1, size, q, p);
    BlockBounds(h1, base, brk1, b1, p);
    BlockBounds(h1, base, brk1, b1, q);
    WordsForFits(CopyLen(h1, p, size), Sz(h1, p));
    WordsForFits(CopyLen(h1, p, size), Sz(h1, q));
    Apart(h1, base, brk1, b1, p, q);
  }

  /** realloc's promise, from malloc's block q through memcpy of CopyLen
      bytes from p into q to free(p). */
  lemma ReallocDone(h0: seq<Word>, b0: seq<int>, fl0: seq<int>, base: int, brk0: int,
                    h1: seq<Word>, b1: seq<int>, h2: seq<Word>, h3: seq<Word>, b3: seq<int>,
                    p: int, q: int, size: nat, n: nat)
    requires Tiled(h0, base, brk0, b0) && p in AllocSet(h0, b0)
    requires Malloced(h0, b0, fl0, h1, b1, size, Some(q))
    requires n == WordsFor(CopyLen(h1, p, size)) && Copied(h1, p, h2, q, n)
    requires AllocSet(h2, b1) == AllocSet(h1, b1) && KeptBut(h1, h2, b1, q)
    requires Sz(h2, q) == Sz(h1, q) && !IsFree(h2, q)
    requires Freed(h2, b1, h3, b3, p)
    ensures Reallocated(h0, b0, h3, b3, p, size, q)
  {
    ReallocBlock(h0, b0, fl0, base, brk0, h1, b1, h2, h3, b3, p, q, size);
    ReallocContents(h0, b0, fl0, base, brk0, h1, b1, h2, h3, b3, p, q, size, n);
  }

  /** After realloc, q is allocated in p's place, with malloc's size. */
  lemma ReallocBlock(h0: seq<Word>, b0: seq<int>, fl0: seq<int>, base: int, brk0: int,
                     h1: seq<Word>, b1: seq<int>, h2: seq<Word>, h3: seq<Word>, b3: seq<int>,
                     p: int, q: int, size: nat)
    requires Tiled(h0, base, brk0, b0) && p in AllocSet(h0, b0)
    requires Malloced(h0, b0, fl0, h1, b1, size, Some(q))
    requires AllocSet(h2, b1) == AllocSet(h1, b1) && Sz(h2, q) == Sz(h1, q) && !IsFree(h2, q)
    requires Freed(h2, b1, h3, b3, p)
    ensures q != p && q in b3 && !IsFree(h3, q)
    ensures AllocSet(h3, b3) == AllocSet(h0, b0) - {p} + {q}
    ensures AdjustedSize(size) <= Sz(h3, q) < AdjustedSize(size) + MIN_BLOCK
  {
    MallocKeeps(h0, b0, fl0, base, brk0, h1, b1, size, q, p);
    var a := AllocSet(h0, b0);
    assert AllocSet(h3, b3) == (a + {q}) - {p};
    assert (a + {q}) - {p} == a - {p} + {q};
    assert q in AllocSet(h3, b3);
    var j :| 0 <= j < |b1| && b1[j] == q;
    assert SpanSame(h2, h3, b1[j]);
    assert InSpan(h2, q, HdrAddr(q));
  }

  /** After realloc, q holds p's first words and every other allocated
      block is untouched. */
  lemma ReallocContents(h0: seq<Word>, b0: seq<int>, fl0: seq<int>, base: int, brk0: int,
                        h1: seq<Word>, b1: seq<int>, h2: seq<Word>, h3: seq<Word>, b3: seq<int>,
                        p: int, q: int, size: nat, n: nat)
    requires Tiled(h0, base, brk0, b0) && p in AllocSet(h0, b0)
    requires Malloced(h0, b0, fl0, h1, b1, size, Some(q))
    requires n == WordsFor(CopyLen(h1, p, size)) && Copied(h1, p, h2, q, n)
    requires AllocSet(h2, b1) == AllocSet(h1, b1) && KeptBut(h1, h2, b1, q)
    requires Sz(h2, q) == Sz(h1, q) && !IsFree(h2, q)
    requires Freed(h2, b1, h3, b3, p)
    ensures CopyLen(h0, p, size) >= 0 && Copied(h0, p, h3, q, WordsFor(CopyLen(h0, p, size)))
    ensures KeptBut(h0, h3, b0, p)
  {
    MallocKeeps(h0, b0, fl0, base, brk0, h1, b1, size, q, p);
    BlockBounds(h0, base, brk0, b0, p);
    var j :| 0 <= j < |b1| && b1[j] == q;
    assert SpanSame(h2, h3, b1[j]);
    assert CopyLen(h1, p, size) == CopyLen(h0, p, size);
    WordsForFits(CopyLen(h0, p, size), Sz(h0, p));
    WordsForFits(CopyLen(h0, p, size), Sz(h2, q));
    ReallocCopied(h0, h1, h2, h3, p, q, n);
    ReallocKept(h0, b0, base, brk0, h1, b1, h2, h3, p, q);
  }

  /** calloc's memset into the fresh block q keeps malloc's promise. */
  lemma CallocDone(h0: seq<Word>, b0: seq<int>, fl0: seq<int>, base: int, brk0: int,
                   h1: seq<Word>, b1: seq<int>, h2: seq<Word>, size: nat, q: int)
    requires Tiled(h0, base, brk0, b0)
    requires Malloced(h0, b0, fl0, h1, b1, size, Some(q))
    requires AllocSet(h2, b1) == AllocSet(h1, b1) && KeptBut(h1, h2, b1, q)
    requires Sz(h2, q) == Sz(h1, q) && !IsFree(h2, q)
    ensures Malloced(h0, b0, fl0, h2, b1, size, Some(q))
  {
    forall i | 0 <= i < |b0| && !IsFree(h0, b0[i]) ensures SpanSame(h0, h2, b0[i]) {
      var b := b0[i];
      BlockBounds(h0, base, brk0, b0, b);
      assert b in AllocSet(h0, b0);
      var j :| 0 <= j < |b1| && b1[j] == b;
      assert SpanSame(h1, h2, b1[j]);
      SpanTrans(h0, h1, h2, b);
    }
  }
}
