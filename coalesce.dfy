/**
 * coalesce: a detached free block is merged with whichever of its two
 * physical neighbours are free. The run of blocks that becomes one block,
 * how its tags are rewritten, and the four cases mm.c distinguishes.
 */
module Coalescing {
  import opened Tags
  import opened Layout
  import opened Retile
  import opened Steps

  /** Where the merged run around blocks[kb] starts: at the previous block
      when that one is free. */
  ghost function RunStart(h: seq<Word>, blocks: seq<int>, kb: int): int
    requires 0 <= kb < |blocks|
  {
    if kb > 0 && IsFree(h, blocks[kb - 1]) then kb - 1 else kb
  }

  /** Where the merged run around blocks[kb] ends (exclusive): past the
      next block when that one is free. */
  ghost function RunEnd(h: seq<Word>, blocks: seq<int>, kb: int): int
    requires 0 <= kb < |blocks|
  {
    if kb + 1 < |blocks| && IsFree(h, blocks[kb + 1]) then kb + 2 else kb + 1
  }

  /** PREV_BLPR reads the previous block's footer just below p's header and
      NEXT_BLPR adds p's size: they find p's physical neighbours, and at the
      two ends the prologue and the epilogue, both marked allocated. */
  lemma Neighbours(h: seq<Word>, base: int, brk: int, blocks: seq<int>, kb: int)
    requires Tiled(h, base, brk, blocks) && Epilogue(h, brk) && 0 <= kb < |blocks|
    ensures var p := blocks[kb];
      base + 16 <= p && p + Sz(h, p) <= brk && 0 <= p - DSIZE < |h|
    ensures var p := blocks[kb]; var pre := PrevAddr(p, GetSize(At(h, p - DSIZE)));
      0 <= HdrAddr(pre) < |h| &&
      (kb > 0 ==> pre == blocks[kb - 1] && Linked(h, blocks, kb - 1)) &&
      (kb == 0 ==> GetAlloc(At(h, HdrAddr(pre))) == 1)
    ensures var p := blocks[kb]; var next := NextAddr(p, Sz(h, p));
      0 <= HdrAddr(next) < |h| &&
      (kb + 1 < |blocks| ==> next == blocks[kb + 1] && Linked(h, blocks, kb)) &&
      (kb + 1 == |blocks| ==> GetAlloc(At(h, HdrAddr(next))) == 1)
  {
    var p := blocks[kb];
    BlockBounds(h, base, brk, blocks, p);
    if kb > 0 {
      var b := blocks[kb - 1];
      assert Linked(h, blocks, kb - 1);
      BlockBounds(h, base, brk, blocks, b);
      assert FtrAddr(b, Sz(h, b)) == p - DSIZE;
    }
    if kb + 1 < |blocks| {
      assert Linked(h, blocks, kb);
      BlockBounds(h, base, brk, blocks, blocks[kb + 1]);
    }
  }

  /** What the invariant with p = blocks[kb] detached says about the run
      around p: every block in it is free, the blocks just outside it are
      allocated, no two free blocks meet away from it, every free block
      outside it is listed, and so are the free neighbours it swallows. */
  lemma RunFacts(h: seq<Word>, base: int, brk: int, blocks: seq<int>, fl: seq<int>, kb: int)
    requires 0 <= kb < |blocks| && Detached(h, base, brk, blocks, fl, blocks[kb])
    ensures var lo, hi := RunStart(h, blocks, kb), RunEnd(h, blocks, kb);
      (forall m :: lo <= m < hi ==> IsFree(h, blocks[m])) &&
      (lo > 0 ==> !IsFree(h, blocks[lo - 1])) &&
      (hi < |blocks| ==> !IsFree(h, blocks[hi])) &&
      (forall m :: 0 <= m < |blocks| - 1 && (m + 1 < lo || hi <= m) ==> !BothFree(h, blocks, m)) &&
      (forall m :: 0 <= m < |blocks| && (m < lo || hi <= m) && IsFree(h, blocks[m]) ==> blocks[m] in fl) &&
      (lo < kb ==> blocks[lo] in fl) && (hi == kb + 2 ==> blocks[kb + 1] in fl)
  {
    Distinct(h, base, brk, blocks);
    var lo, hi := RunStart(h, blocks, kb), RunEnd(h, blocks, kb);
    if lo > 0 && lo < kb {
      assert !BothFree(h, blocks, lo - 1);
    }
    if hi < |blocks| && hi == kb + 2 {
      assert !BothFree(h, blocks, hi - 1);
    }
  }

  /** With both neighbours allocated, no two free blocks meet anywhere. */
  lemma AloneCoalesced(h: seq<Word>, base: int, brk: int, blocks: seq<int>, fl: seq<int>, kb: int)
    requires 0 <= kb < |blocks| && Detached(h, base, brk, blocks, fl, blocks[kb])
    requires RunStart(h, blocks, kb) == kb && RunEnd(h, blocks, kb) == kb + 1
    ensures Coalesced(h, blocks)
  {
    Distinct(h, base, brk, blocks);
    forall m | 0 <= m < |blocks| - 1 ensures !BothFree(h, blocks, m) {
      if m == kb - 1 || m == kb {
      } else {
        assert blocks[m] != blocks[kb] && blocks[m + 1] != blocks[kb];
      }
    }
  }

  /** Blocks i .. j-1 of a tiled heap retagged as one free block of `size`
      bytes at blocks[i]: the header and footer writes of cases 2, 3 and 4. */
  ghost predicate MergeWritten(h: seq<Word>, h2: seq<Word>, base: int, brk: int, blocks: seq<int>,
                               i: int, j: int, size: int)
  {
    Tiled(h, base, brk, blocks) && Epilogue(h, brk) && 0 <= i < j <= |blocks| &&
    size == End(h, blocks[j - 1]) - blocks[i] && MIN_BLOCK <= size < WORD_LIMIT && size % 8 == 0 &&
    0 <= HdrAddr(blocks[i]) && FtrAddr(blocks[i], size) < |h| &&
    h2 == SetTags(h, blocks[i], size, 0)
  }

  /** The merge re-tiles the heap and leaves the blocks outside the run and
      the epilogue alone. */
  lemma MergeTiles(h: seq<Word>, h2: seq<Word>, base: int, brk: int, blocks: seq<int>, i: int, j: int, size: int)
    requires MergeWritten(h, h2, base, brk, blocks, i, j, size)
    ensures Tiled(h2, base, brk, Merged(blocks, i, j)) && Epilogue(h2, brk)
    ensures Sz(h2, blocks[i]) == size && IsFree(h2, blocks[i])
    ensures At(h2, base) == At(h, base)
    ensures forall m :: 0 <= m < |blocks| && (m < i || j <= m) ==>
      (IsFree(h2, blocks[m]) <==> IsFree(h, blocks[m])) && SpanSame(h, h2, blocks[m])
  {
    TiledMerge(h, h2, base, brk, blocks, i, j, size, 0);
    OutsideSame(h, h2, base, brk, blocks, i, j);
  }

  /** The merge writes no link word of a listed block, and the listed blocks
      stay free blocks of the merged sequence, as long as none of them is
      swallowed by the run (its first block may be listed). */
  lemma MergeList(h: seq<Word>, h2: seq<Word>, base: int, brk: int, blocks: seq<int>, fl: seq<int>,
                  i: int, j: int, size: int)
    requires MergeWritten(h, h2, base, brk, blocks, i, j, size)
    requires ListOk(h, base, fl) && ListIn(h, blocks, fl)
    requires forall n, m :: 0 <= n < |fl| && i < m < j ==> fl[n] != blocks[m]
    ensures ListOk(h2, base, fl) && ListIn(h2, Merged(blocks, i, j), fl)
  {
    MergeTiles(h, h2, base, brk, blocks, i, j, size);
    forall n | 0 <= n < |fl|
      ensures h2[fl[n]] == h[fl[n]] && h2[fl[n] + WSIZE] == h[fl[n] + WSIZE]
      ensures fl[n] in Merged(blocks, i, j) && IsFree(h2, fl[n])
    {
      MergeNode(h, h2, base, brk, blocks, fl[n], i, j, size);
    }
    ListFrame(h, h2, base, fl);
  }

  /** One listed block b under the merge: its link words are not written,
      and it is a free block of the merged sequence. */
  lemma MergeNode(h: seq<Word>, h2: seq<Word>, base: int, brk: int, blocks: seq<int>, b: int,
                  i: int, j: int, size: int)
    requires MergeWritten(h, h2, base, brk, blocks, i, j, size)
    requires b in blocks && IsFree(h, b) && forall m :: i < m < j ==> b != blocks[m]
    requires forall m :: 0 <= m < |blocks| && (m < i || j <= m) ==>
      (IsFree(h2, blocks[m]) <==> IsFree(h, blocks[m])) && SpanSame(h, h2, blocks[m])
    requires IsFree(h2, blocks[i])
    ensures 0 <= b && b + WSIZE < |h|
    ensures h2[b] == h[b] && h2[b + WSIZE] == h[b + WSIZE]
    ensures b in Merged(blocks, i, j) && IsFree(h2, b)
  {
    var nb := Merged(blocks, i, j);
    var m :| 0 <= m < |blocks| && blocks[m] == b;
    BlockBounds(h, base, brk, blocks, b);
    if m == i {
      assert nb[i] == b;
    } else {
      assert InSpan(h, blocks[m], b) && InSpan(h, blocks[m], b + WSIZE);
      if m < i {
        assert nb[m] == b;
      } else {
        assert nb[m - (j - i - 1)] == b;
      }
    }
  }

  /** After the merge no two free blocks meet, given that none met away
      from the run and the blocks just outside it are allocated. */
  lemma MergeCoalesced(h: seq<Word>, h2: seq<Word>, blocks: seq<int>, i: int, j: int)
    requires 0 <= i < j <= |blocks|
    requires forall m :: 0 <= m < |blocks| && (m < i || j <= m) ==> (IsFree(h2, blocks[m]) <==> IsFree(h, blocks[m]))
    requires i > 0 ==> !IsFree(h, blocks[i - 1])
    requires j < |blocks| ==> !IsFree(h, blocks[j])
    requires forall m :: 0 <= m < |blocks| - 1 && (m + 1 < i || j <= m) ==> !BothFree(h, blocks, m)
    ensures Coalesced(h2, Merged(blocks, i, j))
  {
    var nb := Merged(blocks, i, j);
    var d := j - i - 1;
    forall m | 0 <= m < |nb| - 1 ensures !BothFree(h2, nb, m) {
      if m + 1 < i {
        assert !BothFree(h, blocks, m);
      } else if m + 1 == i {
        assert nb[m] == blocks[i - 1];
      } else if m == i {
        assert nb[m + 1] == blocks[j];
      } else {
        assert nb[m] == blocks[m + d] && nb[m + 1] == blocks[m + 1 + d];
        assert !BothFree(h, blocks, m + d);
      }
    }
  }

  /** Merging free blocks into a free block changes no allocated block. */
  lemma MergeAllocSet(h: seq<Word>, h2: seq<Word>, blocks: seq<int>, i: int, j: int)
    requires 0 <= i < j <= |blocks|
    requires forall m :: i <= m < j ==> IsFree(h, blocks[m])
    requires IsFree(h2, blocks[i])
    requires forall m :: 0 <= m < |blocks| && (m < i || j <= m) ==> (IsFree(h2, blocks[m]) <==> IsFree(h, blocks[m]))
    ensures AllocSet(h2, Merged(blocks, i, j)) == AllocSet(h, blocks)
  {
    var nb := Merged(blocks, i, j);
    var d := j - i - 1;
    forall x ensures x in AllocSet(h2, nb) <==> x in AllocSet(h, blocks) {
      if x in AllocSet(h2, nb) {
        var m :| 0 <= m < |nb| && nb[m] == x;
        assert blocks[if m < i then m else m + d] == x;
      }
      if x in AllocSet(h, blocks) {
        var m :| 0 <= m < |blocks| && blocks[m] == x;
        assert nb[if m < i then m else m - d] == x;
      }
    }
  }

  /** Every free block of the merged sequence but the merged one was a free
      block outside the run, hence listed. */
  lemma MergeListed(h: seq<Word>, h2: seq<Word>, blocks: seq<int>, fl: seq<int>, i: int, j: int)
    requires 0 <= i < j <= |blocks|
    requires forall m :: 0 <= m < |blocks| && (m < i || j <= m) ==> (IsFree(h2, blocks[m]) <==> IsFree(h, blocks[m]))
    requires forall m :: 0 <= m < |blocks| && (m < i || j <= m) && IsFree(h, blocks[m]) ==> blocks[m] in fl
    ensures var nb := Merged(blocks, i, j);
      forall m :: 0 <= m < |nb| && IsFree(h2, nb[m]) && m != i ==> nb[m] in fl
  {
    var nb := Merged(blocks, i, j);
    forall m | 0 <= m < |nb| && IsFree(h2, nb[m]) && m != i ensures nb[m] in fl {
      assert nb[m] == blocks[if m < i then m else m + (j - i - 1)];
    }
  }

  /** remove_list(next) from a detached heap: the tags, the epilogue and
      the allocated blocks stay, and the list loses exactly that node. */
  lemma Unlinked(h0: seq<Word>, h1: seq<Word>, base: int, brk: int, blocks: seq<int>, fl: seq<int>, kn: int)
    requires Tiled(h0, base, brk, blocks) && Epilogue(h0, brk)
    requires ListOk(h0, base, fl) && ListIn(h0, blocks, fl) && 0 <= kn < |fl|
    requires h1 == RemoveListWrites(h0, base, fl, kn)
    ensures Tiled(h1, base, brk, blocks) && Epilogue(h1, brk)
    ensures ListOk(h1, base, Without(fl, kn)) && ListIn(h1, blocks, Without(fl, kn))
    ensures forall m :: 0 <= m < |blocks| ==>
      Sz(h1, blocks[m]) == Sz(h0, blocks[m]) && (IsFree(h1, blocks[m]) <==> IsFree(h0, blocks[m]))
    ensures AllocKept(h0, h1, blocks) && AllocSet(h1, blocks) == AllocSet(h0, blocks)
    ensures forall x :: x in Without(fl, kn) <==> x in fl && x != fl[kn]
  {
    RemoveListKeeps(h0, base, brk, blocks, fl, kn);
    TouchesKeep(h0, h1, base, brk, blocks);
    WithoutMembers(fl, kn);
  }

  /** Retagging a run of free blocks keeps every allocated block, all of
      which lie outside the run. */
  lemma MergeKept(h: seq<Word>, h2: seq<Word>, blocks: seq<int>, i: int, j: int)
    requires 0 <= i < j <= |blocks|
    requires forall m :: i <= m < j ==> IsFree(h, blocks[m])
    requires forall m :: 0 <= m < |blocks| && (m < i || j <= m) ==> SpanSame(h, h2, blocks[m])
    ensures AllocKept(h, h2, blocks)
  {
  }

  /** Allocated blocks kept from h0 to h1 and, as blocks of b1, from h1 to
      h2 are kept from h0 to h2. */
  lemma KeptChain(h0: seq<Word>, h1: seq<Word>, h2: seq<Word>, base: int, brk: int, b0: seq<int>, b1: seq<int>)
    requires Tiled(h0, base, brk, b0)
    requires AllocKept(h0, h1, b0) && AllocKept(h1, h2, b1)
    requires AllocSet(h0, b0) <= AllocSet(h1, b1)
    ensures AllocKept(h0, h2, b0)
  {
    forall i | 0 <= i < |b0| && !IsFree(h0, b0[i]) ensures SpanSame(h0, h2, b0[i]) {
      var b := b0[i];
      BlockBounds(h0, base, brk, b0, b);
      assert InSpan(h0, b, HdrAddr(b));
      assert b in AllocSet(h0, b0);
      var j :| 0 <= j < |b1| && b1[j] == b;
      assert SpanSame(h1, h2, b1[j]);
    }
  }

  /** What coalesce(blocks[kb]) leaves behind, from the detached heap h0
      with blocks b0 and list fl0: the invariant over the merged block
      sequence; the merged block r, free, holding the bytes of the whole run;
      the allocated blocks untouched; and a list holding r and the old nodes
      the run did not swallow, with r pushed on the front unless r is the
      previous block, which keeps its place; when there was nothing to
      merge, the list is the old one with r pushed on the front. */
  ghost predicate Absorbed(h0: seq<Word>, b0: seq<int>, fl0: seq<int>, kb: int,
                           h: seq<Word>, base: int, brk: int, blocks: seq<int>, fl: seq<int>, r: int)
    requires 0 <= kb < |b0|
  {
    var lo, hi := RunStart(h0, b0, kb), RunEnd(h0, b0, kb);
    HeapOk(h, base, brk, blocks, fl) &&
    r == b0[lo] && blocks == Merged(b0, lo, hi) &&
    IsFree(h, r) && Sz(h, r) == End(h0, b0[hi - 1]) - r &&
    AllocSet(h, blocks) == AllocSet(h0, b0) && AllocKept(h0, h, b0) &&
    (forall x :: x in fl <==> x == r || (x in fl0 && x !in b0[lo..hi])) &&
    (lo == kb ==> fl != [] && fl[0] == r) &&
    (lo < kb && hi == kb + 1 ==> fl == fl0) &&
    (lo == kb && hi == kb + 1 ==> fl == [r] + fl0)
  }

  /** The exact list after a merge that swallowed the free next block
      b0[kb + 1], found at fl0[kn]: the old list without it, with p pushed
      on the front when the previous block was allocated. */
  ghost predicate UnlinkedList(h0: seq<Word>, b0: seq<int>, fl0: seq<int>, kb: int, fl: seq<int>, kn: int)
    requires 0 <= kb < |b0|
  {
    RunEnd(h0, b0, kb) == kb + 2 ==>
      0 <= kn < |fl0| && fl0[kn] == b0[kb + 1] &&
      fl == (if RunStart(h0, b0, kb) == kb then [b0[kb]] else []) + Without(fl0, kn)
  }

  /** Cases 2 and 4 leave the list that UnlinkedList names: p pushed on
      the front of the list without next, or just the list without next. */
  lemma UnlinkedListCases(h0: seq<Word>, b0: seq<int>, fl0: seq<int>, kb: int, kn: int)
    requires 0 <= kb < |b0| && RunEnd(h0, b0, kb) == kb + 2
    requires 0 <= kn < |fl0| && fl0[kn] == b0[kb + 1]
    ensures RunStart(h0, b0, kb) == kb ==> UnlinkedList(h0, b0, fl0, kb, [b0[kb]] + Without(fl0, kn), kn)
    ensures RunStart(h0, b0, kb) < kb ==> UnlinkedList(h0, b0, fl0, kb, Without(fl0, kn), kn)
  {
  }

  /** Everything the merge of blocks i .. j-1 needs of the heap before it:
      the run is free and bounded by allocated blocks, no two free blocks
      meet away from it, the free blocks outside it are listed, and no
      block past its first is. */
  ghost predicate MergeReady(h: seq<Word>, h2: seq<Word>, base: int, brk: int, blocks: seq<int>, fl: seq<int>,
                             i: int, j: int, size: int)
  {
    MergeWritten(h, h2, base, brk, blocks, i, j, size) &&
    ListOk(h, base, fl) && ListIn(h, blocks, fl) &&
    (forall m :: i <= m < j ==> IsFree(h, blocks[m])) &&
    (i > 0 ==> !IsFree(h, blocks[i - 1])) &&
    (j < |blocks| ==> !IsFree(h, blocks[j])) &&
    (forall m :: 0 <= m < |blocks| - 1 && (m + 1 < i || j <= m) ==> !BothFree(h, blocks, m)) &&
    (forall m :: 0 <= m < |blocks| && (m < i || j <= m) && IsFree(h, blocks[m]) ==> blocks[m] in fl) &&
    (forall m :: i < m < j ==> blocks[m] !in fl)
  }

  /** The merge of a ready run: the heap is tiled by the merged sequence,
      the list is intact, no two free blocks meet, every free block but the
      merged one is listed, and the allocated blocks are untouched. */
  lemma MergeState(h: seq<Word>, h2: seq<Word>, base: int, brk: int, blocks: seq<int>, fl: seq<int>,
                   i: int, j: int, size: int)
    requires MergeReady(h, h2, base, brk, blocks, fl, i, j, size)
    ensures var nb := Merged(blocks, i, j);
      Tiled(h2, base, brk, nb) && Epilogue(h2, brk) && ListOk(h2, base, fl) && ListIn(h2, nb, fl) &&
      Coalesced(h2, nb) && (forall m :: 0 <= m < |nb| && IsFree(h2, nb[m]) && m != i ==> nb[m] in fl) &&
      IsFree(h2, blocks[i]) && Sz(h2, blocks[i]) == size &&
      AllocSet(h2, nb) == AllocSet(h, blocks) && AllocKept(h, h2, blocks)
  {
    MergeTiles(h, h2, base, brk, blocks, i, j, size);
    MergeList(h, h2, base, brk, blocks, fl, i, j, size);
    MergeCoalesced(h, h2, blocks, i, j);
    MergeAllocSet(h, h2, blocks, i, j);
    MergeListed(h, h2, blocks, fl, i, j);
    MergeKept(h, h2, blocks, i, j);
  }

  /** The list after case 3: the previous block stays, p was never on it. */
  lemma SwallowPrev(b0: seq<int>, fl: seq<int>, kb: int)
    requires 1 <= kb < |b0| && b0[kb - 1] in fl && b0[kb] !in fl
    ensures forall x :: x in fl <==> x == b0[kb - 1] || (x in fl && x !in b0[kb - 1..kb + 1])
  {
    assert b0[kb - 1..kb + 1] == [b0[kb - 1], b0[kb]];
  }

  /** The list after case 2: next removed, p pushed. */
  lemma SwallowNext(b0: seq<int>, fl: seq<int>, fl1: seq<int>, kb: int)
    requires 0 <= kb && kb + 1 < |b0| && b0[kb] !in fl
    requires forall x :: x in fl1 <==> x in fl && x != b0[kb + 1]
    ensures forall x :: x in [b0[kb]] + fl1 <==> x == b0[kb] || (x in fl && x !in b0[kb..kb + 2])
  {
    assert b0[kb..kb + 2] == [b0[kb], b0[kb + 1]];
  }

  /** The list after case 4: next removed, the previous block stays. */
  lemma SwallowBoth(b0: seq<int>, fl: seq<int>, fl1: seq<int>, kb: int)
    requires 1 <= kb && kb + 1 < |b0| && b0[kb - 1] in fl && b0[kb] !in fl && b0[kb - 1] != b0[kb + 1]
    requires forall x :: x in fl1 <==> x in fl && x != b0[kb + 1]
    ensures forall x :: x in fl1 <==> x == b0[kb - 1] || (x in fl && x !in b0[kb - 1..kb + 2])
  {
    assert b0[kb - 1..kb + 2] == [b0[kb - 1], b0[kb], b0[kb + 1]];
  }

  /** remove_list of the run's last block changes no block's free bit: the
      run facts carry over to the shorter list, since blocks are distinct. */
  lemma RunTransfer(h0: seq<Word>, h1: seq<Word>, blocks: seq<int>, fl: seq<int>, fl1: seq<int>,
                    lo: int, hi: int)
    requires 0 <= lo < hi <= |blocks|
    requires forall m :: 0 <= m < |blocks| && m != hi - 1 ==> blocks[m] != blocks[hi - 1]
    requires forall m :: 0 <= m < |blocks| ==> (IsFree(h1, blocks[m]) <==> IsFree(h0, blocks[m]))
    requires forall x :: x in fl1 <==> x in fl && x != blocks[hi - 1]
    requires forall m :: lo <= m < hi ==> IsFree(h0, blocks[m])
    requires lo > 0 ==> !IsFree(h0, blocks[lo - 1])
    requires hi < |blocks| ==> !IsFree(h0, blocks[hi])
    requires forall m :: 0 <= m < |blocks| - 1 && (m + 1 < lo || hi <= m) ==> !BothFree(h0, blocks, m)
    requires forall m :: 0 <= m < |blocks| && (m < lo || hi <= m) && IsFree(h0, blocks[m]) ==> blocks[m] in fl
    requires hi - lo <= 3 && (hi - lo == 3 ==> blocks[lo + 1] !in fl)
    ensures forall m :: lo <= m < hi ==> IsFree(h1, blocks[m])
    ensures lo > 0 ==> !IsFree(h1, blocks[lo - 1])
    ensures hi < |blocks| ==> !IsFree(h1, blocks[hi])
    ensures forall m :: 0 <= m < |blocks| - 1 && (m + 1 < lo || hi <= m) ==> !BothFree(h1, blocks, m)
    ensures forall m :: 0 <= m < |blocks| && (m < lo || hi <= m) && IsFree(h1, blocks[m]) ==> blocks[m] in fl1
    ensures forall m :: lo < m < hi ==> blocks[m] !in fl1
  {
    forall m | 0 <= m < |blocks| - 1 && (m + 1 < lo || hi <= m) ensures !BothFree(h1, blocks, m) {
      assert !BothFree(h0, blocks, m);
    }
  }

  /** A listed merged block completes the list to all free blocks. */
  lemma TracksMerged(h: seq<Word>, nb: seq<int>, fl: seq<int>, i: int)
    requires 0 <= i < |nb| && nb[i] in fl && ListIn(h, nb, fl)
    requires forall m :: 0 <= m < |nb| && IsFree(h, nb[m]) && m != i ==> nb[m] in fl
    ensures Tracks(h, nb, fl)
  {
  }

  /** Case 1, both neighbours allocated: add_list(p) alone. */
  lemma AloneStep(h0: seq<Word>, h1: seq<Word>, base: int, brk: int, blocks: seq<int>, fl: seq<int>, kb: int)
    requires 0 <= kb < |blocks| && Detached(h0, base, brk, blocks, fl, blocks[kb])
    requires RunStart(h0, blocks, kb) == kb && RunEnd(h0, blocks, kb) == kb + 1
    requires base + 16 <= blocks[kb] && blocks[kb] + 8 <= |h0|
    requires h1 == AddListWrites(h0, base, fl, blocks[kb])
    ensures Absorbed(h0, blocks, fl, kb, h1, base, brk, blocks, [blocks[kb]] + fl, blocks[kb])
  {
    var p := blocks[kb];
    AloneHeap(h0, h1, base, brk, blocks, fl, kb);
    MergedNone(blocks, kb);
    SwallowNone(blocks, fl, kb);
    assert ([p] + fl)[0] == p;
  }

  /** Case 1's list: p pushed, nothing else taken off. */
  lemma SwallowNone(b0: seq<int>, fl: seq<int>, kb: int)
    requires 0 <= kb < |b0|
    ensures forall x :: x in [b0[kb]] + fl <==> x == b0[kb] || (x in fl && x !in b0[kb..kb + 1])
  {
    assert b0[kb..kb + 1] == [b0[kb]];
  }

  /** The heap half of case 1: add_list(p) leaves a valid heap with p
      listed first and every block's tags as they were. */
  lemma AloneHeap(h0: seq<Word>, h1: seq<Word>, base: int, brk: int, blocks: seq<int>, fl: seq<int>, kb: int)
    requires 0 <= kb < |blocks| && Detached(h0, base, brk, blocks, fl, blocks[kb])
    requires RunStart(h0, blocks, kb) == kb && RunEnd(h0, blocks, kb) == kb + 1
    requires base + 16 <= blocks[kb] && blocks[kb] + 8 <= |h0|
    requires h1 == AddListWrites(h0, base, fl, blocks[kb])
    ensures HeapOk(h1, base, brk, blocks, [blocks[kb]] + fl)
    ensures AllocKept(h0, h1, blocks) && AllocSet(h1, blocks) == AllocSet(h0, blocks)
    ensures IsFree(h1, blocks[kb]) && Sz(h1, blocks[kb]) == Sz(h0, blocks[kb])
  {
    var p := blocks[kb];
    AloneCoalesced(h0, base, brk, blocks, fl, kb);
    AddListKeeps(h0, base, brk, blocks, fl, p);
    Attach(h0, h1, base, brk, blocks, fl, p);
  }

  /** Case 3, only the previous block free: its tags are rewritten to span
      both blocks, and the list is left as it is. */
  lemma PrevStep(h0: seq<Word>, h1: seq<Word>, base: int, brk: int, blocks: seq<int>, fl: seq<int>,
                 kb: int, size: int)
    requires 0 <= kb < |blocks| && Detached(h0, base, brk, blocks, fl, blocks[kb])
    requires RunStart(h0, blocks, kb) == kb - 1 && RunEnd(h0, blocks, kb) == kb + 1
    requires MergeWritten(h0, h1, base, brk, blocks, kb - 1, kb + 1, size)
    ensures Absorbed(h0, blocks, fl, kb, h1, base, brk, Merged(blocks, kb - 1, kb + 1), fl, blocks[kb - 1])
  {
    PrevHeap(h0, h1, base, brk, blocks, fl, kb, size);
    SwallowPrev(blocks, fl, kb);
  }

  /** The heap half of case 3: a valid heap over the merged blocks, with
      the previous block grown over p and still listed. */
  lemma PrevHeap(h0: seq<Word>, h1: seq<Word>, base: int, brk: int, blocks: seq<int>, fl: seq<int>,
                 kb: int, size: int)
    requires 0 <= kb < |blocks| && Detached(h0, base, brk, blocks, fl, blocks[kb])
    requires RunStart(h0, blocks, kb) == kb - 1 && RunEnd(h0, blocks, kb) == kb + 1
    requires MergeWritten(h0, h1, base, brk, blocks, kb - 1, kb + 1, size)
    ensures HeapOk(h1, base, brk, Merged(blocks, kb - 1, kb + 1), fl)
    ensures IsFree(h1, blocks[kb - 1]) && Sz(h1, blocks[kb - 1]) == size
    ensures AllocSet(h1, Merged(blocks, kb - 1, kb + 1)) == AllocSet(h0, blocks) && AllocKept(h0, h1, blocks)
  {
    var lo, hi := kb - 1, kb + 1;
    RunFacts(h0, base, brk, blocks, fl, kb);
    MergeState(h0, h1, base, brk, blocks, fl, lo, hi, size);
    var nb := Merged(blocks, lo, hi);
    assert nb[lo] == blocks[lo];
    TracksMerged(h1, nb, fl, lo);
  }

  /** Cases 2 and 4 up to their last step: remove_list(next), then the tags
      of the run's first block rewritten to span the whole run. */
  ghost predicate UnlinkWritten(h0: seq<Word>, h1: seq<Word>, h2: seq<Word>, base: int, brk: int,
                                blocks: seq<int>, fl: seq<int>, kb: int, kn: int, lo: int, size: int)
  {
    0 <= kb < |blocks| && Detached(h0, base, brk, blocks, fl, blocks[kb]) &&
    lo == RunStart(h0, blocks, kb) && RunEnd(h0, blocks, kb) == kb + 2 &&
    0 <= kn < |fl| && fl[kn] == blocks[kb + 1] &&
    h1 == RemoveListWrites(h0, base, fl, kn) && |h1| == |h0| &&
    size == End(h0, blocks[kb + 1]) - blocks[lo] && MIN_BLOCK <= size < WORD_LIMIT && size % 8 == 0 &&
    0 <= HdrAddr(blocks[lo]) && FtrAddr(blocks[lo], size) < |h0| &&
    h2 == SetTags(h1, blocks[lo], size, 0)
  }

  /** The run lo .. hi-1 around blocks[kb] (one block each side at most):
      the sizes in its headers, as mm.c adds them, sum to its span, which
      fits a tag and lies inside the heap. */
  lemma RunSpan(h: seq<Word>, base: int, brk: int, blocks: seq<int>, lo: int, kb: int, hi: int)
    returns (size: int)
    requires Tiled(h, base, brk, blocks) && kb - 1 <= lo <= kb < hi <= kb + 2 && 0 <= lo && hi <= |blocks|
    ensures 0 <= HdrAddr(blocks[lo]) <= HdrAddr(blocks[kb]) <= HdrAddr(blocks[hi - 1]) < |h|
    ensures size == (if lo < kb then GetSize(h[HdrAddr(blocks[lo])]) else 0) + GetSize(h[HdrAddr(blocks[kb])]) +
                    (if hi == kb + 2 then GetSize(h[HdrAddr(blocks[kb + 1])]) else 0)
    ensures size == End(h, blocks[hi - 1]) - blocks[lo]
    ensures MIN_BLOCK <= size < WORD_LIMIT && size % 8 == 0 && FtrAddr(blocks[lo], size) < |h|
  {
    RunSize(h, base, brk, blocks, lo, hi);
    var f, p, l := blocks[lo], blocks[kb], blocks[hi - 1];
    BlockBounds(h, base, brk, blocks, f);
    BlockBounds(h, base, brk, blocks, p);
    BlockBounds(h, base, brk, blocks, l);
    assert Sz(h, p) == GetSize(h[HdrAddr(p)]) && Sz(h, l) == GetSize(h[HdrAddr(l)]);
    if lo < kb {
      assert Linked(h, blocks, lo);
      assert Sz(h, f) == GetSize(h[HdrAddr(f)]);
    }
    if hi == kb + 2 {
      assert Linked(h, blocks, kb);
    }
    size := End(h, l) - f;
  }

  /** Cases 2 and 4 before their writes: next is listed at some index kn,
      and the sum of the run's sizes that mm.c computes spans the run, fits
      a tag and lies inside the heap. */
  lemma UnlinkPlan(h0: seq<Word>, base: int, brk: int, blocks: seq<int>, fl: seq<int>, kb: int, lo: int)
    returns (kn: int, size: int)
    requires 0 <= kb < |blocks| && Detached(h0, base, brk, blocks, fl, blocks[kb])
    requires lo == RunStart(h0, blocks, kb) && RunEnd(h0, blocks, kb) == kb + 2
    ensures ListOk(h0, base, fl) && |h0| <= WORD_LIMIT && 0 <= kn < |fl| && fl[kn] == blocks[kb + 1]
    ensures 0 <= HdrAddr(blocks[lo]) <= HdrAddr(blocks[kb]) <= HdrAddr(blocks[kb + 1]) < |h0|
    ensures size == (if lo < kb then GetSize(h0[HdrAddr(blocks[lo])]) else 0) +
                    GetSize(h0[HdrAddr(blocks[kb])]) + GetSize(h0[HdrAddr(blocks[kb + 1])])
    ensures 0 < size < WORD_LIMIT && size % 8 == 0 && FtrAddr(blocks[lo], size) < |h0|
    ensures var h1 := RemoveListWrites(h0, base, fl, kn);
      UnlinkWritten(h0, h1, SetTags(h1, blocks[lo], size, 0), base, brk, blocks, fl, kb, kn, lo, size)
  {
    RunFacts(h0, base, brk, blocks, fl, kb);
    kn :| 0 <= kn < |fl| && fl[kn] == blocks[kb + 1];
    size := RunSpan(h0, base, brk, blocks, lo, kb, kb + 2);
    NodeLinks(h0, base, fl, kn);
  }

  /** Case 3 before its writes: the two sizes mm.c adds span the previous
      block and p, fit a tag and lie inside the heap. */
  lemma PrevPlan(h0: seq<Word>, base: int, brk: int, blocks: seq<int>, fl: seq<int>, kb: int)
    returns (size: int)
    requires 0 <= kb < |blocks| && Detached(h0, base, brk, blocks, fl, blocks[kb])
    requires RunStart(h0, blocks, kb) == kb - 1
    ensures 0 <= HdrAddr(blocks[kb - 1]) <= HdrAddr(blocks[kb]) < |h0|
    ensures size == GetSize(h0[HdrAddr(blocks[kb - 1])]) + GetSize(h0[HdrAddr(blocks[kb])])
    ensures 0 < size < WORD_LIMIT && size % 8 == 0 && FtrAddr(blocks[kb - 1], size) < |h0|
    ensures MergeWritten(h0, SetTags(h0, blocks[kb - 1], size, 0), base, brk, blocks, kb - 1, kb + 1, size)
  {
    size := RunSpan(h0, base, brk, blocks, kb - 1, kb, kb + 1);
  }

  /** remove_list(next) readies the run for the merge, and changes nothing
      else that the merge looks at. */
  lemma UnlinkReady(h0: seq<Word>, h1: seq<Word>, h2: seq<Word>, base: int, brk: int,
                    blocks: seq<int>, fl: seq<int>, kb: int, kn: int, lo: int, size: int)
    requires UnlinkWritten(h0, h1, h2, base, brk, blocks, fl, kb, kn, lo, size)
    ensures MergeReady(h1, h2, base, brk, blocks, Without(fl, kn), lo, kb + 2, size)
    ensures AllocKept(h0, h1, blocks) && AllocSet(h1, blocks) == AllocSet(h0, blocks)
  {
    UnlinkRetag(h0, h1, h2, base, brk, blocks, fl, kb, kn, lo, size);
    UnlinkRun(h0, h1, base, brk, blocks, fl, kb, kn, lo);
  }

  /** After remove_list(next) the heap is still tiled with the same tags,
      the shorter list is well linked, and the run's retagging is the merge
      of lo .. kb+1. */
  lemma UnlinkRetag(h0: seq<Word>, h1: seq<Word>, h2: seq<Word>, base: int, brk: int,
                    blocks: seq<int>, fl: seq<int>, kb: int, kn: int, lo: int, size: int)
    requires UnlinkWritten(h0, h1, h2, base, brk, blocks, fl, kb, kn, lo, size)
    ensures MergeWritten(h1, h2, base, brk, blocks, lo, kb + 2, size)
    ensures ListOk(h1, base, Without(fl, kn)) && ListIn(h1, blocks, Without(fl, kn))
    ensures forall m :: 0 <= m < |blocks| ==> (IsFree(h1, blocks[m]) <==> IsFree(h0, blocks[m]))
    ensures AllocKept(h0, h1, blocks) && AllocSet(h1, blocks) == AllocSet(h0, blocks)
  {
    Unlinked(h0, h1, base, brk, blocks, fl, kn);
    assert End(h1, blocks[kb + 1]) == End(h0, blocks[kb + 1]);
  }

  /** The run facts of the detached heap hold after remove_list(next),
      for the list without next. */
  lemma UnlinkRun(h0: seq<Word>, h1: seq<Word>, base: int, brk: int,
                  blocks: seq<int>, fl: seq<int>, kb: int, kn: int, lo: int)
    requires 0 <= kb < |blocks| && Detached(h0, base, brk, blocks, fl, blocks[kb])
    requires lo == RunStart(h0, blocks, kb) && RunEnd(h0, blocks, kb) == kb + 2
    requires 0 <= kn < |fl| && fl[kn] == blocks[kb + 1]
    requires forall m :: 0 <= m < |blocks| ==> (IsFree(h1, blocks[m]) <==> IsFree(h0, blocks[m]))
    ensures forall m :: lo <= m < kb + 2 ==> IsFree(h1, blocks[m])
    ensures lo > 0 ==> !IsFree(h1, blocks[lo - 1])
    ensures kb + 2 < |blocks| ==> !IsFree(h1, blocks[kb + 2])
    ensures forall m :: 0 <= m < |blocks| - 1 && (m + 1 < lo || kb + 2 <= m) ==> !BothFree(h1, blocks, m)
    ensures forall m :: 0 <= m < |blocks| && (m < lo || kb + 2 <= m) && IsFree(h1, blocks[m]) ==> blocks[m] in Without(fl, kn)
    ensures forall m :: lo < m < kb + 2 ==> blocks[m] !in Without(fl, kn)
  {
    UnlinkFree(h0, base, brk, blocks, fl, kb, lo);
    UnlinkKeep(h0, base, brk, blocks, fl, kb, kn, lo);
    RunTransfer(h0, h1, blocks, fl, Without(fl, kn), lo, kb + 2);
  }

  /** Before remove_list(next): the free bits of the detached heap around
      a run that ends past next. */
  lemma UnlinkFree(h0: seq<Word>, base: int, brk: int,
                   blocks: seq<int>, fl: seq<int>, kb: int, lo: int)
    requires 0 <= kb < |blocks| && Detached(h0, base, brk, blocks, fl, blocks[kb])
    requires lo == RunStart(h0, blocks, kb) && RunEnd(h0, blocks, kb) == kb + 2
    ensures 0 <= lo < kb + 2 <= |blocks| && kb + 2 - lo <= 3
    ensures forall m :: lo <= m < kb + 2 ==> IsFree(h0, blocks[m])
    ensures lo > 0 ==> !IsFree(h0, blocks[lo - 1])
    ensures kb + 2 < |blocks| ==> !IsFree(h0, blocks[kb + 2])
    ensures forall m :: 0 <= m < |blocks| - 1 && (m + 1 < lo || kb + 2 <= m) ==> !BothFree(h0, blocks, m)
    ensures forall m :: 0 <= m < |blocks| && (m < lo || kb + 2 <= m) && IsFree(h0, blocks[m]) ==> blocks[m] in fl
  {
    RunFacts(h0, base, brk, blocks, fl, kb);
  }

  /** Before remove_list(next): next is the one block the list loses, and
      the middle of a three-block run is not listed. */
  lemma UnlinkKeep(h0: seq<Word>, base: int, brk: int,
                   blocks: seq<int>, fl: seq<int>, kb: int, kn: int, lo: int)
    requires 0 <= kb < |blocks| && Detached(h0, base, brk, blocks, fl, blocks[kb])
    requires lo == RunStart(h0, blocks, kb) && RunEnd(h0, blocks, kb) == kb + 2
    requires 0 <= kn < |fl| && fl[kn] == blocks[kb + 1]
    ensures forall m :: 0 <= m < |blocks| && m != kb + 1 ==> blocks[m] != blocks[kb + 1]
    ensures forall x :: x in Without(fl, kn) <==> x in fl && x != blocks[kb + 1]
    ensures kb + 2 - lo == 3 ==> blocks[lo + 1] !in fl
  {
    UnlinkListed(h0, base, brk, blocks, fl, kb, kn, lo);
    DistinctFrom(h0, base, brk, blocks, kb + 1);
  }

  /** remove_list(next) takes exactly next off the list; p is not on it,
      and a free previous block is and stays. */
  lemma UnlinkListed(h0: seq<Word>, base: int, brk: int, blocks: seq<int>, fl: seq<int>, kb: int, kn: int, lo: int)
    requires 0 <= kb < |blocks| && Detached(h0, base, brk, blocks, fl, blocks[kb])
    requires lo == RunStart(h0, blocks, kb) && RunEnd(h0, blocks, kb) == kb + 2
    requires 0 <= kn < |fl| && fl[kn] == blocks[kb + 1]
    ensures forall x :: x in Without(fl, kn) <==> x in fl && x != blocks[kb + 1]
    ensures blocks[kb] !in fl && (lo < kb ==> blocks[lo] in fl && blocks[lo] != blocks[kb + 1])
  {
    RunFacts(h0, base, brk, blocks, fl, kb);
    WithoutMembers(fl, kn);
    DistinctFrom(h0, base, brk, blocks, kb + 1);
  }

  /** The heap after remove_list(next) and the merge: tiled by the merged
      sequence, with the list short of next, and with every free block but
      the merged one listed. */
  lemma UnlinkMerge(h0: seq<Word>, h1: seq<Word>, h2: seq<Word>, base: int, brk: int,
                    blocks: seq<int>, fl: seq<int>, kb: int, kn: int, lo: int, size: int)
    requires UnlinkWritten(h0, h1, h2, base, brk, blocks, fl, kb, kn, lo, size)
    ensures var nb := Merged(blocks, lo, kb + 2); var fl1 := Without(fl, kn);
      Tiled(h2, base, brk, nb) && Epilogue(h2, brk) && ListOk(h2, base, fl1) && ListIn(h2, nb, fl1) &&
      Coalesced(h2, nb) && (forall m :: 0 <= m < |nb| && IsFree(h2, nb[m]) && m != lo ==> nb[m] in fl1) &&
      IsFree(h2, blocks[lo]) && Sz(h2, blocks[lo]) == size &&
      AllocSet(h2, nb) == AllocSet(h0, blocks) && AllocKept(h0, h2, blocks) &&
      (forall x :: x in fl1 <==> x in fl && x != blocks[kb + 1])
    ensures blocks[kb] !in fl && (lo < kb ==> blocks[lo] in fl && blocks[lo] != blocks[kb + 1])
  {
    var hi := kb + 2;
    var fl1 := Without(fl, kn);
    UnlinkReady(h0, h1, h2, base, brk, blocks, fl, kb, kn, lo, size);
    UnlinkListed(h0, base, brk, blocks, fl, kb, kn, lo);
    MergeState(h1, h2, base, brk, blocks, fl1, lo, hi, size);
    KeptTrans(h0, h1, h2, base, brk, blocks, blocks);
  }

  /** Case 4, both neighbours free: after remove_list(next) the previous
      block's tags span all three blocks; it keeps its place on the list. */
  lemma BothStep(h0: seq<Word>, h1: seq<Word>, h2: seq<Word>, base: int, brk: int,
                 blocks: seq<int>, fl: seq<int>, kb: int, kn: int, size: int)
    requires UnlinkWritten(h0, h1, h2, base, brk, blocks, fl, kb, kn, kb - 1, size)
    ensures Absorbed(h0, blocks, fl, kb, h2, base, brk, Merged(blocks, kb - 1, kb + 2), Without(fl, kn),
                     blocks[kb - 1])
  {
    var lo := kb - 1;
    UnlinkMerge(h0, h1, h2, base, brk, blocks, fl, kb, kn, lo, size);
    var nb := Merged(blocks, lo, kb + 2);
    assert nb[lo] == blocks[lo];
    TracksMerged(h2, nb, Without(fl, kn), lo);
    SwallowBoth(blocks, fl, Without(fl, kn), kb);
  }

  /** Case 2 before its add_list: the merged block may be pushed. */
  lemma NextReady(h0: seq<Word>, h1: seq<Word>, h2: seq<Word>, base: int, brk: int,
                  blocks: seq<int>, fl: seq<int>, kb: int, kn: int, size: int)
    requires UnlinkWritten(h0, h1, h2, base, brk, blocks, fl, kb, kn, kb, size)
    ensures ListOk(h2, base, Without(fl, kn)) && base + 16 <= blocks[kb] && blocks[kb] + 8 <= |h2|
  {
    UnlinkMerge(h0, h1, h2, base, brk, blocks, fl, kb, kn, kb, size);
    BlockBounds(h0, base, brk, blocks, blocks[kb]);
  }

  /** Case 2 after the merge and before add_list(p): p is a detached free
      block of the merged sequence, and no two free blocks meet. */
  lemma NextMerged(h0: seq<Word>, h1: seq<Word>, h2: seq<Word>, base: int, brk: int,
                   blocks: seq<int>, fl: seq<int>, kb: int, kn: int, size: int)
    requires UnlinkWritten(h0, h1, h2, base, brk, blocks, fl, kb, kn, kb, size)
    ensures var nb := Merged(blocks, kb, kb + 2);
      Detached(h2, base, brk, nb, Without(fl, kn), blocks[kb]) && Coalesced(h2, nb) &&
      AllocSet(h2, nb) == AllocSet(h0, blocks) && AllocKept(h0, h2, blocks) &&
      Sz(h2, blocks[kb]) == size
    ensures forall x :: x in [blocks[kb]] + Without(fl, kn) <==>
      x == blocks[kb] || (x in fl && x !in blocks[kb..kb + 2])
  {
    var p, fl1 := blocks[kb], Without(fl, kn);
    UnlinkMerge(h0, h1, h2, base, brk, blocks, fl, kb, kn, kb, size);
    var nb := Merged(blocks, kb, kb + 2);
    assert nb[kb] == p;
    SwallowNext(blocks, fl, fl1, kb);
  }

  /** Case 2, only the next block free: after remove_list(next) p's tags
      span both blocks and add_list(p) pushes it. */
  lemma NextStep(h0: seq<Word>, h1: seq<Word>, h2: seq<Word>, h3: seq<Word>, base: int, brk: int,
                 blocks: seq<int>, fl: seq<int>, kb: int, kn: int, size: int)
    requires UnlinkWritten(h0, h1, h2, base, brk, blocks, fl, kb, kn, kb, size)
    requires ListOk(h2, base, Without(fl, kn)) && base + 16 <= blocks[kb] && blocks[kb] + 8 <= |h2|
    requires h3 == AddListWrites(h2, base, Without(fl, kn), blocks[kb])
    ensures Absorbed(h0, blocks, fl, kb, h3, base, brk, Merged(blocks, kb, kb + 2),
                     [blocks[kb]] + Without(fl, kn), blocks[kb])
  {
    var p, fl1 := blocks[kb], Without(fl, kn);
    NextMerged(h0, h1, h2, base, brk, blocks, fl, kb, kn, size);
    var nb := Merged(blocks, kb, kb + 2);
    AddListKeeps(h2, base, brk, nb, fl1, p);
    Attach(h2, h3, base, brk, nb, fl1, p);
    KeptChain(h0, h2, h3, base, brk, blocks, nb);
    assert ([p] + fl1)[0] == p;
  }
}
