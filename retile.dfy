/**
 * How the tag writes of place, coalesce and extend_heap re-tile the heap:
 * setting one block's tags, merging a run of neighbouring blocks into one,
 * splitting a block in two, and appending a block at brk. Each lemma states
 * the new block sequence and that nothing outside the touched blocks moved.
 */
module Retile {
  import opened Tags
  import opened Layout

  /** PUT(HDPR(p), PACK(size, alloc)) followed by PUT(FTPR(p), PACK(size, alloc)),
      FTPR reading the size just written. */
  ghost function SetTags(h: seq<Word>, p: int, size: int, alloc: int): (h2: seq<Word>)
    requires 0 <= size < WORD_LIMIT && size % 8 == 0 && 0 <= alloc <= 1
    requires 0 <= HdrAddr(p) < |h| && 0 <= FtrAddr(p, size) < |h|
    ensures |h2| == |h|
  {
    h[HdrAddr(p) := Pack(size, alloc)][FtrAddr(p, size) := Pack(size, alloc)]
  }

  /** h2 differs from h at most in the addresses [lo, hi). */
  ghost predicate Within(h: seq<Word>, h2: seq<Word>, lo: int, hi: int)
  {
    |h2| == |h| &&
    forall a :: 0 <= a < |h| && (a < lo || hi <= a) ==> h2[a] == h[a]
  }

  /** The byte just past block b: the next block's payload address. */
  ghost function End(h: seq<Word>, b: int): int { NextAddr(b, Sz(h, b)) }

  /** Writes confined to the bytes of blocks i .. j-1 leave every other block
      whole, and the sentinel, the prologue and the epilogue words as well. */
  lemma OutsideSame(h: seq<Word>, h2: seq<Word>, base: int, brk: int, blocks: seq<int>, i: int, j: int)
    requires Tiled(h, base, brk, blocks) && 0 <= i < j <= |blocks|
    requires Within(h, h2, HdrAddr(blocks[i]), HdrAddr(End(h, blocks[j - 1])))
    ensures forall m :: 0 <= m < |blocks| && (m < i || j <= m) ==> SpanSame(h, h2, blocks[m])
    ensures forall m :: 0 <= m < |blocks| && (m < i || j <= m) ==>
      Sz(h2, blocks[m]) == Sz(h, blocks[m]) && (IsFree(h2, blocks[m]) <==> IsFree(h, blocks[m])) &&
      BlockOk(h2, blocks[m])
    ensures At(h2, base) == At(h, base) && At(h2, base + 4) == At(h, base + 4) && At(h2, base + 8) == At(h, base + 8)
    ensures At(h2, brk - WSIZE) == At(h, brk - WSIZE)
  {
    Separated(h, base, brk, blocks);
    if i > 0 { Ordered(h, base, brk, blocks, 0, i); }
    if j < |blocks| { Ordered(h, base, brk, blocks, j - 1, j); }
    forall m | 0 <= m < |blocks| && (m < i || j <= m)
      ensures SpanSame(h, h2, blocks[m])
      ensures Sz(h2, blocks[m]) == Sz(h, blocks[m]) && (IsFree(h2, blocks[m]) <==> IsFree(h, blocks[m]))
      ensures BlockOk(h2, blocks[m])
    {
      if m < i { Ordered(h, base, brk, blocks, m, i); }
      if j <= m && j - 1 < m { Ordered(h, base, brk, blocks, j - 1, m); }
      assert InSpan(h, blocks[m], HdrAddr(blocks[m]));
      assert InSpan(h, blocks[m], FtrAddr(blocks[m], Sz(h, blocks[m])));
    }
  }

  /** A list none of whose link words or sentinel changed is still intact. */
  lemma ListFrame(h: seq<Word>, h2: seq<Word>, base: int, fl: seq<int>)
    requires ListOk(h, base, fl) && |h2| == |h| && h2[base] == h[base]
    requires forall n :: 0 <= n < |fl| ==> h2[fl[n]] == h[fl[n]] && h2[fl[n] + WSIZE] == h[fl[n] + WSIZE]
    ensures ListOk(h2, base, fl)
  {
    forall n | 0 <= n < |fl| ensures SuccVal(h2, fl[n]) == SuccOf(fl, n, base) {
      assert SuccVal(h, fl[n]) == SuccOf(fl, n, base);
    }
    forall n | 0 <= n < |fl| ensures PredVal(h2, fl[n]) == PredOf(fl, n, base) {
      assert PredVal(h, fl[n]) == PredOf(fl, n, base);
    }
  }

  /** Blocks i .. j-1 merged into one block at blocks[i]: the sequence that
      keeps blocks[i] and drops the j - i - 1 blocks it swallows. */
  function Merged(blocks: seq<int>, i: int, j: int): (r: seq<int>)
    requires 0 <= i < j <= |blocks|
    ensures |r| == |blocks| - (j - i - 1)
    ensures forall m :: 0 <= m <= i ==> r[m] == blocks[m]
    ensures forall m :: i < m < |r| ==> r[m] == blocks[m + (j - i - 1)]
  {
    blocks[..i + 1] + blocks[j..]
  }

  /** A run of one block merges into itself. */
  lemma MergedNone(blocks: seq<int>, i: int)
    requires 0 <= i < |blocks|
    ensures Merged(blocks, i, i + 1) == blocks
  {
    assert blocks[..i + 1] + blocks[i + 1..] == blocks;
  }

  /** Blocks i .. j-1 together span a whole number of double words, at
      least MIN_BLOCK bytes, all inside the region. */
  lemma RunSize(h: seq<Word>, base: int, brk: int, blocks: seq<int>, i: int, j: int)
    requires Tiled(h, base, brk, blocks) && 0 <= i < j <= |blocks|
    ensures var size := End(h, blocks[j - 1]) - blocks[i];
      MIN_BLOCK <= size < WORD_LIMIT && size % 8 == 0 &&
      base + 12 <= HdrAddr(blocks[i]) && FtrAddr(blocks[i], size) + WSIZE <= brk - WSIZE &&
      End(h, blocks[j - 1]) <= brk &&
      (j == |blocks| <==> End(h, blocks[j - 1]) == brk) &&
      (j < |blocks| ==> End(h, blocks[j - 1]) == blocks[j])
  {
    Separated(h, base, brk, blocks);
    var first, last := blocks[i], blocks[j - 1];
    assert BlockOk(h, first) && BlockOk(h, last);
    SumAligned(last, Sz(h, last));
    DiffAligned(End(h, last), first);
    if j - 1 > i { Ordered(h, base, brk, blocks, i, j - 1); }
    if j < |blocks| { assert Linked(h, blocks, j - 1); }
  }

  /** Setting the tags of blocks[i] to span up to the end of blocks[j-1]
      merges blocks i .. j-1 into one block with the given allocated bit;
      with j == i + 1 this only sets that block's allocated bit. */
  lemma TiledMerge(h: seq<Word>, h2: seq<Word>, base: int, brk: int, blocks: seq<int>, i: int, j: int,
                   size: int, alloc: int)
    requires Tiled(h, base, brk, blocks) && 0 <= i < j <= |blocks| && 0 <= alloc <= 1
    requires size == End(h, blocks[j - 1]) - blocks[i]
    requires MIN_BLOCK <= size < WORD_LIMIT && size % 8 == 0
    requires 0 <= HdrAddr(blocks[i]) && FtrAddr(blocks[i], size) < |h|
    requires h2 == SetTags(h, blocks[i], size, alloc)
    ensures Tiled(h2, base, brk, Merged(blocks, i, j))
    ensures Sz(h2, blocks[i]) == size && (IsFree(h2, blocks[i]) <==> alloc == 0)
    ensures Within(h, h2, HdrAddr(blocks[i]), HdrAddr(End(h, blocks[j - 1])))
  {
    RunSize(h, base, brk, blocks, i, j);
    assert Within(h, h2, HdrAddr(blocks[i]), HdrAddr(End(h, blocks[j - 1])));
    OutsideSame(h, h2, base, brk, blocks, i, j);
    assert BlockOk(h2, blocks[i]);
    MergedChain(h, h2, base, brk, blocks, i, j);
  }

  lemma MergedChain(h: seq<Word>, h2: seq<Word>, base: int, brk: int, blocks: seq<int>, i: int, j: int)
    requires Tiled(h, base, brk, blocks) && 0 <= i < j <= |blocks|
    requires |h2| == |h| && At(h2, base + 4) == At(h, base + 4) && At(h2, base + 8) == At(h, base + 8)
    requires BlockOk(h2, blocks[i]) && NextAddr(blocks[i], Sz(h2, blocks[i])) == End(h, blocks[j - 1])
    requires forall m :: 0 <= m < |blocks| && (m < i || j <= m) ==>
      Sz(h2, blocks[m]) == Sz(h, blocks[m]) && BlockOk(h2, blocks[m])
    requires j < |blocks| ==> End(h, blocks[j - 1]) == blocks[j]
    requires j == |blocks| ==> End(h, blocks[j - 1]) == brk
    ensures Tiled(h2, base, brk, Merged(blocks, i, j))
  {
    var nb := Merged(blocks, i, j);
    var d := j - i - 1;
    forall m | 0 <= m < |nb| ensures BlockOk(h2, nb[m]) {
      if m != i { assert nb[m] == blocks[if m < i then m else m + d]; }
    }
    forall m | 0 <= m < |nb| - 1 ensures Linked(h2, nb, m) {
      if m < i {
        assert nb[m] == blocks[m] && nb[m + 1] == blocks[m + 1] && Linked(h, blocks, m);
      } else if m > i {
        assert nb[m] == blocks[m + d] && nb[m + 1] == blocks[m + 1 + d] && Linked(h, blocks, m + d);
      }
    }
    if j < |blocks| {
      assert nb[|nb| - 1] == blocks[|blocks| - 1];
    }
  }

  /** blocks with q inserted after position k. */
  function Split(blocks: seq<int>, k: int, q: int): (r: seq<int>)
    requires 0 <= k < |blocks|
    ensures |r| == |blocks| + 1
  {
    blocks[..k + 1] + [q] + blocks[k + 1..]
  }

  /** Where each block of Split(blocks, k, q) comes from. */
  lemma SplitAt(blocks: seq<int>, k: int, q: int)
    requires 0 <= k < |blocks|
    ensures var r := Split(blocks, k, q);
      forall m :: 0 <= m < |r| ==>
        r[m] == (if m <= k then blocks[m] else if m == k + 1 then q else blocks[m - 1])
  {
  }

  /** Splitting keeps every block and adds q. */
  lemma SplitMembers(blocks: seq<int>, k: int, q: int)
    requires 0 <= k < |blocks|
    ensures forall b :: b in blocks ==> b in Split(blocks, k, q)
    ensures q in Split(blocks, k, q)
  {
    var r := Split(blocks, k, q);
    SplitAt(blocks, k, q);
    assert r[k + 1] == q;
    forall b | b in blocks ensures b in r {
      var m :| 0 <= m < |blocks| && blocks[m] == b;
      assert r[if m <= k then m else m + 1] == b;
    }
  }

  /** The four tag words of a split land on distinct addresses inside the
      old block and bracket the two new blocks. */
  lemma SplitTags(h: seq<Word>, h2: seq<Word>, p: int, size: int, q: int, rest: int)
    requires p % 8 == 0 && 8 <= p && q == p + size && q + rest <= |h| <= WORD_LIMIT
    requires MIN_BLOCK <= size && size % 8 == 0 && rest % 8 == 0 && rest >= MIN_BLOCK
    requires h2 == SetTags(SetTags(h, p, size, 1), q, rest, 0)
    ensures BlockOk(h2, p) && Sz(h2, p) == size && !IsFree(h2, p)
    ensures BlockOk(h2, q) && Sz(h2, q) == rest && IsFree(h2, q)
    ensures Within(h, h2, HdrAddr(p), HdrAddr(q + rest))
  {
  }

  /** place's split: the front `size` bytes of block k become an allocated
      block and the remaining `rest` bytes, at least MIN_BLOCK, a free block
      q after it. */
  lemma TiledSplit(h: seq<Word>, h2: seq<Word>, base: int, brk: int, blocks: seq<int>, k: int,
                   p: int, size: int, q: int, rest: int)
    requires Tiled(h, base, brk, blocks) && 0 <= k < |blocks| && blocks[k] == p
    requires MIN_BLOCK <= size && size % 8 == 0 && rest == Sz(h, p) - size && rest % 8 == 0 && rest >= MIN_BLOCK
    requires q == p + size && q + rest <= |h|
    requires h2 == SetTags(SetTags(h, p, size, 1), q, rest, 0)
    ensures Tiled(h2, base, brk, Split(blocks, k, q))
    ensures Sz(h2, p) == size && !IsFree(h2, p)
    ensures Sz(h2, q) == rest && IsFree(h2, q)
    ensures Within(h, h2, HdrAddr(p), HdrAddr(End(h, p)))
  {
    RunSize(h, base, brk, blocks, k, k + 1);
    SplitTags(h, h2, p, size, q, rest);
    OutsideSame(h, h2, base, brk, blocks, k, k + 1);
    SplitChain(h, h2, base, brk, blocks, k, p, size, q);
  }

  lemma SplitChain(h: seq<Word>, h2: seq<Word>, base: int, brk: int, blocks: seq<int>, k: int,
                   p: int, size: int, q: int)
    requires Tiled(h, base, brk, blocks) && 0 <= k < |blocks| && blocks[k] == p
    requires |h2| == |h| && At(h2, base + 4) == At(h, base + 4) && At(h2, base + 8) == At(h, base + 8)
    requires BlockOk(h2, p) && Sz(h2, p) == size && q == p + size
    requires BlockOk(h2, q) && q + Sz(h2, q) == End(h, p)
    requires forall m :: 0 <= m < |blocks| && m != k ==>
      Sz(h2, blocks[m]) == Sz(h, blocks[m]) && BlockOk(h2, blocks[m])
    ensures Tiled(h2, base, brk, Split(blocks, k, q))
  {
    var nb := Split(blocks, k, q);
    SplitAt(blocks, k, q);
    forall m | 0 <= m < |nb| ensures BlockOk(h2, nb[m]) {
      if m < k { assert nb[m] == blocks[m]; }
      else if m > k + 1 { assert nb[m] == blocks[m - 1]; }
    }
    forall m | 0 <= m < |nb| - 1 ensures Linked(h2, nb, m) {
      if m < k {
        assert nb[m] == blocks[m] && nb[m + 1] == blocks[m + 1] && Linked(h, blocks, m);
      } else if m > k + 1 {
        assert nb[m] == blocks[m - 1] && nb[m + 1] == blocks[m] && Linked(h, blocks, m - 1);
      } else if m == k + 1 {
        assert nb[m + 1] == blocks[k + 1] && Linked(h, blocks, k);
      }
    }
    if k + 1 < |blocks| {
      assert nb[|nb| - 1] == blocks[|blocks| - 1];
    }
  }

  /** A list whose nodes all lie outside blocks i .. j-1 survives writes
      confined to those blocks, and its nodes stay free. */
  lemma ListOutside(h: seq<Word>, h2: seq<Word>, base: int, brk: int, blocks: seq<int>, fl: seq<int>, i: int, j: int)
    requires Tiled(h, base, brk, blocks) && 0 <= i < j <= |blocks|
    requires ListOk(h, base, fl) && ListIn(h, blocks, fl)
    requires forall n, m :: 0 <= n < |fl| && i <= m < j ==> fl[n] != blocks[m]
    requires Within(h, h2, HdrAddr(blocks[i]), HdrAddr(End(h, blocks[j - 1])))
    ensures ListOk(h2, base, fl)
    ensures forall n :: 0 <= n < |fl| ==> IsFree(h2, fl[n]) && Sz(h2, fl[n]) == Sz(h, fl[n])
  {
    OutsideSame(h, h2, base, brk, blocks, i, j);
    forall n | 0 <= n < |fl|
      ensures h2[fl[n]] == h[fl[n]] && h2[fl[n] + WSIZE] == h[fl[n] + WSIZE]
      ensures IsFree(h2, fl[n]) && Sz(h2, fl[n]) == Sz(h, fl[n])
    {
      var m :| 0 <= m < |blocks| && blocks[m] == fl[n];
      BlockBounds(h, base, brk, blocks, fl[n]);
      assert InSpan(h, blocks[m], fl[n]) && InSpan(h, blocks[m], fl[n] + WSIZE);
    }
    ListFrame(h, h2, base, fl);
  }
}
