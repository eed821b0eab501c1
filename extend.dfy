/**
 * extend_heap at the level of heap sequences: the new block's tags and the
 * new epilogue written where the old epilogue stood, what they make of the
 * heap before coalesce runs, and what coalesce then leaves.
 */
module Extending {
  import opened Tags
  import opened Layout
  import opened Retile
  import opened Steps
  import opened Coalescing

  /** The words extend_heap writes for a new block at the old break p:
      its header (over the old epilogue), its footer, and the epilogue
      PACK(0, 1) just past it. */
  ghost function ExtendWrites(h: seq<Word>, p: int, size: int): (h2: seq<Word>)
    requires 8 <= p && MIN_BLOCK <= size < WORD_LIMIT && size % 8 == 0 && p + size <= |h|
    ensures |h2| == |h|
  {
    SetTags(h, p, size, 0)[HdrAddr(NextAddr(p, size)) := Pack(0, 1)]
  }

  /** Everything the heap check is made of, but the epilogue: what mm_init
      has in place before its first extend_heap. */
  ghost predicate Extensible(h: seq<Word>, base: int, brk: int, blocks: seq<int>, fl: seq<int>)
  {
    Tiled(h, base, brk, blocks) && Coalesced(h, blocks) && ListOk(h, base, fl) && Tracks(h, blocks, fl)
  }

  /** Writes at or above the last word below brk leave every block, the
      prologue and the free list as they were. */
  lemma BelowKept(h: seq<Word>, h2: seq<Word>, base: int, brk: int, blocks: seq<int>, fl: seq<int>)
    requires Tiled(h, base, brk, blocks) && ListOk(h, base, fl) && ListIn(h, blocks, fl)
    requires Within(h, h2, brk - WSIZE, |h|)
    ensures forall i :: 0 <= i < |blocks| ==>
      SpanSame(h, h2, blocks[i]) && Sz(h2, blocks[i]) == Sz(h, blocks[i]) &&
      (IsFree(h2, blocks[i]) <==> IsFree(h, blocks[i])) && BlockOk(h2, blocks[i])
    ensures At(h2, base + 4) == At(h, base + 4) && At(h2, base + 8) == At(h, base + 8)
    ensures ListOk(h2, base, fl) && ListIn(h2, blocks, fl)
  {
    Separated(h, base, brk, blocks);
    forall n | 0 <= n < |fl| ensures h2[fl[n]] == h[fl[n]] && h2[fl[n] + WSIZE] == h[fl[n] + WSIZE] {
      var m :| 0 <= m < |blocks| && blocks[m] == fl[n];
      BlockBounds(h, base, brk, blocks, fl[n]);
    }
    ListFrame(h, h2, base, fl);
  }

  /** The new block tiles on after the old ones, up to the new break. */
  lemma ExtendTiled(h: seq<Word>, h2: seq<Word>, base: int, brk: int, size: int, blocks: seq<int>,
                     nb: seq<int>, nbrk: int)
    requires Tiled(h, base, brk, blocks) && MIN_BLOCK <= size < WORD_LIMIT && size % 8 == 0 && brk + size <= |h|
    requires h2 == ExtendWrites(h, brk, size)
    requires nb == blocks + [brk] && nbrk == brk + size
    requires forall i :: 0 <= i < |blocks| ==> Sz(h2, blocks[i]) == Sz(h, blocks[i]) && BlockOk(h2, blocks[i])
    requires At(h2, base + 4) == At(h, base + 4) && At(h2, base + 8) == At(h, base + 8)
    ensures Tiled(h2, base, nbrk, nb) && Epilogue(h2, nbrk)
    ensures Sz(h2, brk) == size && IsFree(h2, brk)
  {
    assert BlockOk(h2, brk);
    forall i | 0 <= i < |nb| - 1 ensures Linked(h2, nb, i) {
      if i < |blocks| - 1 {
        assert Linked(h, blocks, i);
      }
    }
    SumAligned(brk, size);
  }

  /** After extend_heap's writes the new block is a free block waiting for
      coalesce: the heap is as Detached requires, and nothing allocated
      moved. */
  lemma ExtendStep(h: seq<Word>, h2: seq<Word>, base: int, brk: int, size: int, blocks: seq<int>, fl: seq<int>,
                    nb: seq<int>, nbrk: int)
    requires Extensible(h, base, brk, blocks, fl)
    requires MIN_BLOCK <= size && size % 8 == 0 && brk + size <= |h|
    requires h2 == ExtendWrites(h, brk, size)
    requires nb == blocks + [brk] && nbrk == brk + size
    ensures Detached(h2, base, nbrk, nb, fl, brk)
    ensures Sz(h2, brk) == size
    ensures AllocSet(h2, nb) == AllocSet(h, blocks) && AllocKept(h, h2, blocks)
  {
    BelowKept(h, h2, base, brk, blocks, fl);
    ExtendTiled(h, h2, base, brk, size, blocks, nb, nbrk);
    Separated(h, base, brk, blocks);
    assert forall n :: 0 <= n < |fl| ==> fl[n] in nb;
    assert brk !in fl;
    forall i | 0 <= i < |nb| && IsFree(h2, nb[i]) && nb[i] != brk ensures nb[i] in fl {
      if i < |blocks| {
        assert nb[i] == blocks[i];
      }
    }
    forall i | 0 <= i < |blocks| - 1 ensures !BothFree(h2, nb, i) {
      assert !BothFree(h, blocks, i);
    }
    assert forall i :: 0 <= i < |nb| - 1 && BothFree(h2, nb, i) ==> nb[i + 1] == brk;
    ExtendAllocSet(h, h2, blocks, brk);
  }

  /** The new block is free, so the allocated blocks are the old ones. */
  lemma ExtendAllocSet(h: seq<Word>, h2: seq<Word>, blocks: seq<int>, brk: int)
    requires IsFree(h2, brk)
    requires forall i :: 0 <= i < |blocks| ==> (IsFree(h2, blocks[i]) <==> IsFree(h, blocks[i]))
    ensures AllocSet(h2, blocks + [brk]) == AllocSet(h, blocks)
  {
    var nb := blocks + [brk];
    forall b | b in AllocSet(h2, nb) ensures b in AllocSet(h, blocks) {
      var i :| 0 <= i < |nb| && nb[i] == b;
      assert i < |blocks|;
    }
    forall b | b in AllocSet(h, blocks) ensures b in AllocSet(h2, nb) {
      var i :| 0 <= i < |blocks| && blocks[i] == b;
      assert nb[i] == b;
    }
  }

  /** What extend_heap promises when the region grows by size bytes from
      brk0 (the heap h0, blocks b0, list fl0) to brk (the heap h, blocks
      `blocks`, list fl): the heap check holds; either the old last block
      was free and has grown by size bytes up to the new break, staying
      where it was on the list, or the new block stands on its own at the
      head of the list; either way r is a listed free block ending at the
      break, and the allocated blocks are untouched. */
  ghost predicate Extended(h0: seq<Word>, b0: seq<int>, fl0: seq<int>, brk0: int,
                           h: seq<Word>, base: int, brk: int, blocks: seq<int>, fl: seq<int>, size: int, r: int)
  {
    brk == brk0 + size &&
    HeapOk(h, base, brk, blocks, fl) &&
    r in blocks && r in fl && IsFree(h, r) && r + Sz(h, r) == brk &&
    (if |b0| > 0 && IsFree(h0, b0[|b0| - 1])
     then r == b0[|b0| - 1] && blocks == b0 && fl == fl0 && Sz(h, r) == Sz(h0, r) + size
     else r == brk0 && blocks == b0 + [brk0] && Sz(h, r) == size &&
          fl == [r] + fl0) &&
    AllocSet(h, blocks) == AllocSet(h0, b0) && AllocKept(h0, h, b0)
  }

  /** What extend_heap has done once coalesce returns r: either the old
      last block was free and has grown by size bytes up to the new break,
      staying where it was on the list, or the new block stands on its own;
      either way r is a listed free block ending at the break, and the
      allocated blocks are untouched. */
  lemma ExtendDone(h0: seq<Word>, h1: seq<Word>, h: seq<Word>, base: int, brk: int, size: int,
                   b0: seq<int>, fl0: seq<int>, nb: seq<int>, nbrk: int, blocks: seq<int>, fl: seq<int>, r: int)
    requires Extensible(h0, base, brk, b0, fl0) && MIN_BLOCK <= size && size % 8 == 0 && brk + size <= |h0|
    requires h1 == ExtendWrites(h0, brk, size)
    requires nb == b0 + [brk] && nbrk == brk + size
    requires Absorbed(h1, nb, fl0, |b0|, h, base, nbrk, blocks, fl, r)
    ensures Extended(h0, b0, fl0, brk, h, base, nbrk, blocks, fl, size, r)
  {
    ExtendShape(h0, h1, h, base, brk, size, b0, fl0, nb, nbrk, blocks, fl, r);
    ExtendKept(h0, h1, h, base, brk, size, b0, fl0, nb, nbrk, blocks, fl, r);
  }

  /** The allocated blocks before extend_heap are the allocated blocks after
      it, and untouched. */
  lemma ExtendKept(h0: seq<Word>, h1: seq<Word>, h: seq<Word>, base: int, brk: int, size: int,
                   b0: seq<int>, fl0: seq<int>, nb: seq<int>, nbrk: int, blocks: seq<int>, fl: seq<int>, r: int)
    requires Extensible(h0, base, brk, b0, fl0) && MIN_BLOCK <= size && size % 8 == 0 && brk + size <= |h0|
    requires h1 == ExtendWrites(h0, brk, size)
    requires nb == b0 + [brk] && nbrk == brk + size
    requires Absorbed(h1, nb, fl0, |b0|, h, base, nbrk, blocks, fl, r)
    ensures AllocSet(h, blocks) == AllocSet(h0, b0) && AllocKept(h0, h, b0)
  {
    ExtendStep(h0, h1, base, brk, size, b0, fl0, nb, nbrk);
    KeptChain(h0, h1, h, base, brk, b0, nb);
  }

  /** Which block coalesce returned after extend_heap, and how large. */
  lemma ExtendShape(h0: seq<Word>, h1: seq<Word>, h: seq<Word>, base: int, brk: int, size: int,
                    b0: seq<int>, fl0: seq<int>, nb: seq<int>, nbrk: int, blocks: seq<int>, fl: seq<int>, r: int)
    requires Extensible(h0, base, brk, b0, fl0) && MIN_BLOCK <= size && size % 8 == 0 && brk + size <= |h0|
    requires h1 == ExtendWrites(h0, brk, size)
    requires nb == b0 + [brk] && nbrk == brk + size
    requires Absorbed(h1, nb, fl0, |b0|, h, base, nbrk, blocks, fl, r)
    ensures r in blocks && r in fl && IsFree(h, r) && r + Sz(h, r) == nbrk
    ensures if |b0| > 0 && IsFree(h0, b0[|b0| - 1])
            then r == b0[|b0| - 1] && blocks == b0 && fl == fl0 && Sz(h, r) == Sz(h0, r) + size
            else r == brk && blocks == nb && Sz(h, r) == size && fl == [r] + fl0
  {
    ExtendSizes(h0, h1, base, brk, size, b0, fl0, nb, nbrk);
    var kb := |b0|;
    assert nb[kb] == brk;
    assert RunEnd(h1, nb, kb) == kb + 1;
    assert End(h1, nb[kb]) == nbrk;
    if kb > 0 && IsFree(h0, b0[kb - 1]) {
      GrownLast(h0, h1, h, base, brk, size, b0, fl0, nb, nbrk, blocks, fl, r);
    } else {
      assert RunStart(h1, nb, kb) == kb;
      assert Merged(nb, kb, kb + 1) == nb;
    }
  }

  /** The blocks after extend_heap's writes: the old ones with their sizes
      and allocated bits, and the new free block of size bytes. */
  lemma ExtendSizes(h: seq<Word>, h2: seq<Word>, base: int, brk: int, size: int, blocks: seq<int>, fl: seq<int>,
                    nb: seq<int>, nbrk: int)
    requires Extensible(h, base, brk, blocks, fl)
    requires MIN_BLOCK <= size && size % 8 == 0 && brk + size <= |h|
    requires h2 == ExtendWrites(h, brk, size)
    requires nb == blocks + [brk] && nbrk == brk + size
    ensures Tiled(h2, base, nbrk, nb) && Sz(h2, brk) == size && IsFree(h2, brk)
    ensures forall i :: 0 <= i < |blocks| ==>
      Sz(h2, blocks[i]) == Sz(h, blocks[i]) && (IsFree(h2, blocks[i]) <==> IsFree(h, blocks[i]))
  {
    BelowKept(h, h2, base, brk, blocks, fl);
    ExtendTiled(h, h2, base, brk, size, blocks, nb, nbrk);
  }

  /** The old last block was free: coalesce grew it over the new bytes. */
  lemma GrownLast(h0: seq<Word>, h1: seq<Word>, h: seq<Word>, base: int, brk: int, size: int,
                  b0: seq<int>, fl0: seq<int>, nb: seq<int>, nbrk: int, blocks: seq<int>, fl: seq<int>, r: int)
    requires nb == b0 + [brk] && nbrk == brk + size
    requires Tiled(h1, base, nbrk, nb) && Sz(h1, brk) == size
    requires |b0| > 0 && IsFree(h0, b0[|b0| - 1])
    requires Sz(h1, b0[|b0| - 1]) == Sz(h0, b0[|b0| - 1]) && IsFree(h1, b0[|b0| - 1])
    requires Absorbed(h1, nb, fl0, |b0|, h, base, nbrk, blocks, fl, r)
    ensures r == b0[|b0| - 1] && blocks == b0 && fl == fl0 && Sz(h, r) == Sz(h0, r) + size
  {
    var kb := |b0|;
    assert nb[kb] == brk && nb[kb - 1] == b0[kb - 1];
    assert RunEnd(h1, nb, kb) == kb + 1;
    assert RunStart(h1, nb, kb) == kb - 1;
    assert Merged(nb, kb - 1, kb + 1) == b0;
    assert Linked(h1, nb, kb - 1);
  }

  /** mm_init's writes: an empty list at base and the prologue after it.
      With no blocks yet and the break just past the prologue, that is all
      extend_heap needs. */
  ghost function PrologueWrites(h: seq<Word>, base: int): seq<Word>
    requires 0 <= base && base + 4 * WSIZE <= |h|
  {
    h[base := 0][base + WSIZE := Pack(ALIGNMENT, 1)][base + 2 * WSIZE := Pack(ALIGNMENT, 1)]
     [base + 3 * WSIZE := Pack(ALIGNMENT, 1)]
  }

  lemma PrologueStep(h: seq<Word>, base: int)
    requires |h| <= WORD_LIMIT && 0 <= base && base % 8 == 0 && base + 4 * WSIZE <= |h|
    ensures Extensible(PrologueWrites(h, base), base, base + 4 * WSIZE, [], [])
  {
  }

  /** mm_init's first extend_heap, on a heap with no blocks, leaves one free
      block of the whole chunk, alone on the list. */
  lemma FirstChunk(h0: seq<Word>, brk0: int, h: seq<Word>, base: int, brk: int, blocks: seq<int>, fl: seq<int>,
                   size: int, r: int)
    requires Extended(h0, [], [], brk0, h, base, brk, blocks, fl, size, r)
    ensures HeapOk(h, base, brk, blocks, fl) && blocks == [brk0] && fl == blocks
    ensures IsFree(h, brk0) && Sz(h, brk0) == size && brk == brk0 + size
  {
  }
}
