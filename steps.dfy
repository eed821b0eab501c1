/**
 * The heap states that place, coalesce and free pass through, and how each
 * step of those functions moves from one to the next.
 */
module Steps {
  import opened Tags
  import opened Layout
  import opened Retile

  /** The invariant with block p free but not (yet, or no longer) on the
      list, and with p possibly next to another free block. */
  ghost predicate Detached(h: seq<Word>, base: int, brk: int, blocks: seq<int>, fl: seq<int>, p: int)
  {
    Tiled(h, base, brk, blocks) && Epilogue(h, brk) &&
    ListOk(h, base, fl) && ListIn(h, blocks, fl) &&
    p in blocks && IsFree(h, p) && p !in fl &&
    (forall i :: 0 <= i < |blocks| && IsFree(h, blocks[i]) && blocks[i] != p ==> blocks[i] in fl) &&
    (forall i {:trigger BothFree(h, blocks, i)} :: 0 <= i < |blocks| - 1 && BothFree(h, blocks, i) ==> blocks[i] == p || blocks[i + 1] == p)
  }

  /** remove_list on a listed block leaves it detached. */
  lemma Detach(h: seq<Word>, h1: seq<Word>, base: int, brk: int, blocks: seq<int>, fl: seq<int>, k: int)
    requires HeapOk(h, base, brk, blocks, fl) && 0 <= k < |fl|
    requires ListOk(h1, base, Without(fl, k)) && ListIn(h1, blocks, Without(fl, k))
    requires Touches(h, h1, base, blocks)
    ensures Detached(h1, base, brk, blocks, Without(fl, k), fl[k]) && Coalesced(h1, blocks)
    ensures AllocKept(h, h1, blocks) && AllocSet(h1, blocks) == AllocSet(h, blocks)
    ensures forall i :: 0 <= i < |blocks| ==> Sz(h1, blocks[i]) == Sz(h, blocks[i])
  {
    TouchesKeep(h, h1, base, brk, blocks);
    WithoutMembers(fl, k);
  }

  /** add_list on a detached block whose neighbours are allocated restores
      the invariant. */
  lemma Attach(h: seq<Word>, h2: seq<Word>, base: int, brk: int, blocks: seq<int>, fl: seq<int>, q: int)
    requires Detached(h, base, brk, blocks, fl, q) && Coalesced(h, blocks)
    requires ListOk(h2, base, [q] + fl) && ListIn(h2, blocks, [q] + fl) && Touches(h, h2, base, blocks)
    ensures HeapOk(h2, base, brk, blocks, [q] + fl)
    ensures AllocKept(h, h2, blocks) && AllocSet(h2, blocks) == AllocSet(h, blocks)
    ensures forall i :: 0 <= i < |blocks| ==> Sz(h2, blocks[i]) == Sz(h, blocks[i])
  {
    TouchesKeep(h, h2, base, brk, blocks);
    forall i | 0 <= i < |blocks| && IsFree(h2, blocks[i]) ensures blocks[i] in [q] + fl {
      if blocks[i] != q { assert blocks[i] in fl; }
    }
  }

  /** Marking detached block p allocated, with every other block keeping its
      allocated bit, leaves exactly the listed blocks free. */
  lemma AllocateBits(h: seq<Word>, h2: seq<Word>, base: int, brk: int, blocks: seq<int>, fl: seq<int>, p: int)
    requires Detached(h, base, brk, blocks, fl, p) && Coalesced(h, blocks)
    requires forall i :: 0 <= i < |blocks| && blocks[i] != p ==> (IsFree(h2, blocks[i]) <==> IsFree(h, blocks[i]))
    requires !IsFree(h2, p)
    ensures Coalesced(h2, blocks) && ListIn(h2, blocks, fl) && Tracks(h2, blocks, fl)
    ensures AllocSet(h2, blocks) == AllocSet(h, blocks) + {p}
  {
    forall n | 0 <= n < |fl| ensures IsFree(h2, fl[n]) {
      var m :| 0 <= m < |blocks| && blocks[m] == fl[n];
    }
    forall i | 0 <= i < |blocks| - 1 ensures !BothFree(h2, blocks, i) {
      assert !BothFree(h, blocks, i);
    }
  }

  /** The common part of place: retagging detached block kb as allocated at
      its full size keeps every other block, the list and the epilogue. */
  lemma AllocateWhole(h: seq<Word>, h2: seq<Word>, base: int, brk: int, blocks: seq<int>, fl: seq<int>, kb: int)
    requires 0 <= kb < |blocks| && Detached(h, base, brk, blocks, fl, blocks[kb]) && Coalesced(h, blocks)
    requires 0 <= HdrAddr(blocks[kb]) && FtrAddr(blocks[kb], Sz(h, blocks[kb])) < |h|
    requires h2 == SetTags(h, blocks[kb], Sz(h, blocks[kb]), 1)
    ensures HeapOk(h2, base, brk, blocks, fl)
    ensures Sz(h2, blocks[kb]) == Sz(h, blocks[kb]) && !IsFree(h2, blocks[kb])
    ensures AllocSet(h2, blocks) == AllocSet(h, blocks) + {blocks[kb]}
    ensures AllocKept(h, h2, blocks)
  {
    var p := blocks[kb];
    BlockBounds(h, base, brk, blocks, p);
    RunSize(h, base, brk, blocks, kb, kb + 1);
    TiledMerge(h, h2, base, brk, blocks, kb, kb + 1, Sz(h, p), 1);
    assert Merged(blocks, kb, kb + 1) == blocks;
    WholeOutside(h, h2, base, brk, blocks, fl, kb);
    AllocateBits(h, h2, base, brk, blocks, fl, p);
  }

  /** Writes confined to block kb keep the list, the epilogue, every other
      block's free bit and every allocated block's bytes. */
  lemma WholeOutside(h: seq<Word>, h2: seq<Word>, base: int, brk: int, blocks: seq<int>, fl: seq<int>, kb: int)
    requires 0 <= kb < |blocks| && Detached(h, base, brk, blocks, fl, blocks[kb])
    requires Within(h, h2, HdrAddr(blocks[kb]), HdrAddr(End(h, blocks[kb])))
    ensures ListOk(h2, base, fl) && Epilogue(h2, brk) && AllocKept(h, h2, blocks)
    ensures forall i :: 0 <= i < |blocks| && blocks[i] != blocks[kb] ==> (IsFree(h2, blocks[i]) <==> IsFree(h, blocks[i]))
  {
    OutsideSame(h, h2, base, brk, blocks, kb, kb + 1);
    ListOutside(h, h2, base, brk, blocks, fl, kb, kb + 1);
    forall i | 0 <= i < |blocks| && !IsFree(h, blocks[i]) ensures SpanSame(h, h2, blocks[i]) {
      assert i != kb;
    }
  }

  /** place's split: the front of detached block p (position kb) becomes an
      allocated block of `size` bytes and the remaining `rest` bytes a
      detached free block q after it, whose other neighbour is allocated. */
  lemma AllocateSplit(h: seq<Word>, h2: seq<Word>, base: int, brk: int, blocks: seq<int>, fl: seq<int>,
                      kb: int, p: int, size: int, q: int, rest: int)
    requires 0 <= kb < |blocks| && blocks[kb] == p && 8 <= p && q == p + size && q + rest <= |h| <= WORD_LIMIT
    requires MIN_BLOCK <= size && size % 8 == 0 && rest == Sz(h, p) - size && rest % 8 == 0 && rest >= MIN_BLOCK
    requires h2 == SetTags(SetTags(h, p, size, 1), q, rest, 0)
    requires Detached(h, base, brk, blocks, fl, p) && Coalesced(h, blocks)
    ensures Detached(h2, base, brk, Split(blocks, kb, q), fl, q) && Coalesced(h2, Split(blocks, kb, q))
    ensures Sz(h2, p) == size && !IsFree(h2, p) && Sz(h2, q) == rest
  {
    TiledSplit(h, h2, base, brk, blocks, kb, p, size, q, rest);
    SplitOutside(h, h2, base, brk, blocks, fl, kb, q);
    SplitFreeListed(h, h2, blocks, fl, kb, q);
    SplitCoalesced(h, h2, base, brk, blocks, kb, q);
  }

  /** Writes confined to block kb keep the list, the epilogue and every
      other block's free bit, and the address q inside block kb is no
      block's, nor listed. */
  lemma SplitOutside(h: seq<Word>, h2: seq<Word>, base: int, brk: int, blocks: seq<int>, fl: seq<int>,
                     kb: int, q: int)
    requires 0 <= kb < |blocks| && Detached(h, base, brk, blocks, fl, blocks[kb])
    requires Within(h, h2, HdrAddr(blocks[kb]), HdrAddr(End(h, blocks[kb])))
    requires blocks[kb] < q < End(h, blocks[kb])
    ensures ListOk(h2, base, fl) && ListIn(h2, Split(blocks, kb, q), fl) && q in Split(blocks, kb, q) && q !in fl
    ensures Epilogue(h2, brk)
    ensures forall m :: 0 <= m < |blocks| && m != kb ==> (IsFree(h2, blocks[m]) <==> IsFree(h, blocks[m]))
  {
    OutsideSame(h, h2, base, brk, blocks, kb, kb + 1);
    ListOutside(h, h2, base, brk, blocks, fl, kb, kb + 1);
    Inside(h, base, brk, blocks, kb, q);
    SplitListIn(h2, blocks, fl, kb, q);
  }

  /** The same split keeps every allocated block and adds p to them. */
  lemma AllocateSplitKept(h: seq<Word>, h2: seq<Word>, base: int, brk: int, blocks: seq<int>,
                          kb: int, p: int, size: int, q: int, rest: int)
    requires 0 <= kb < |blocks| && blocks[kb] == p && 8 <= p && q == p + size && q + rest <= |h| <= WORD_LIMIT
    requires MIN_BLOCK <= size && size % 8 == 0 && rest == Sz(h, p) - size && rest % 8 == 0 && rest >= MIN_BLOCK
    requires h2 == SetTags(SetTags(h, p, size, 1), q, rest, 0)
    requires Tiled(h, base, brk, blocks) && IsFree(h, p)
    ensures AllocSet(h2, Split(blocks, kb, q)) == AllocSet(h, blocks) + {p}
    ensures AllocKept(h, h2, blocks)
  {
    TiledSplit(h, h2, base, brk, blocks, kb, p, size, q, rest);
    OutsideSame(h, h2, base, brk, blocks, kb, kb + 1);
    Inside(h, base, brk, blocks, kb, q);
    SplitAllocSet(h, h2, base, brk, blocks, kb, q);
  }

  /** An address strictly inside a block is no block's payload address. */
  lemma Inside(h: seq<Word>, base: int, brk: int, blocks: seq<int>, kb: int, q: int)
    requires Tiled(h, base, brk, blocks) && 0 <= kb < |blocks|
    requires blocks[kb] < q < End(h, blocks[kb])
    ensures q !in blocks
  {
    forall m | 0 <= m < |blocks| ensures blocks[m] != q {
      if m < kb { Ordered(h, base, brk, blocks, m, kb); }
      if m > kb { Ordered(h, base, brk, blocks, kb, m); }
    }
  }

  /** The listed blocks are blocks of the split sequence too. */
  lemma SplitListIn(h2: seq<Word>, blocks: seq<int>, fl: seq<int>, kb: int, q: int)
    requires 0 <= kb < |blocks| && q !in blocks
    requires forall n :: 0 <= n < |fl| ==> fl[n] in blocks && IsFree(h2, fl[n])
    ensures ListIn(h2, Split(blocks, kb, q), fl) && q in Split(blocks, kb, q) && q !in fl
  {
    SplitMembers(blocks, kb, q);
  }

  /** After the split every free block but the remainder q is listed. */
  lemma SplitFreeListed(h: seq<Word>, h2: seq<Word>, blocks: seq<int>, fl: seq<int>, kb: int, q: int)
    requires 0 <= kb < |blocks|
    requires forall i :: 0 <= i < |blocks| && IsFree(h, blocks[i]) && blocks[i] != blocks[kb] ==> blocks[i] in fl
    requires !IsFree(h2, blocks[kb])
    requires forall m :: 0 <= m < |blocks| && m != kb ==> (IsFree(h2, blocks[m]) <==> IsFree(h, blocks[m]))
    ensures var nb := Split(blocks, kb, q);
      forall i :: 0 <= i < |nb| && IsFree(h2, nb[i]) && nb[i] != q ==> nb[i] in fl
  {
    var nb := Split(blocks, kb, q);
    SplitAt(blocks, kb, q);
    forall i | 0 <= i < |nb| && IsFree(h2, nb[i]) && nb[i] != q ensures nb[i] in fl {
      if i < kb { assert nb[i] == blocks[i]; }
      else if i > kb + 1 { assert nb[i] == blocks[i - 1]; }
    }
  }

  lemma SplitCoalesced(h: seq<Word>, h2: seq<Word>, base: int, brk: int, blocks: seq<int>, kb: int, q: int)
    requires 0 <= kb < |blocks| && Coalesced(h, blocks) && IsFree(h, blocks[kb])
    requires !IsFree(h2, blocks[kb])
    requires forall m :: 0 <= m < |blocks| && m != kb ==> (IsFree(h2, blocks[m]) <==> IsFree(h, blocks[m]))
    ensures Coalesced(h2, Split(blocks, kb, q))
  {
    var nb := Split(blocks, kb, q);
    SplitAt(blocks, kb, q);
    forall i | 0 <= i < |nb| - 1 ensures !BothFree(h2, nb, i) {
      if i == kb + 1 {
        assert nb[i + 1] == blocks[kb + 1] && !BothFree(h, blocks, kb);
      } else if i < kb {
        assert nb[i] == blocks[i] && nb[i + 1] == blocks[i + 1] && !BothFree(h, blocks, i);
      } else if i > kb + 1 {
        assert nb[i] == blocks[i - 1] && nb[i + 1] == blocks[i] && !BothFree(h, blocks, i - 1);
      }
    }
  }

  lemma SplitAllocSet(h: seq<Word>, h2: seq<Word>, base: int, brk: int, blocks: seq<int>, kb: int, q: int)
    requires Tiled(h, base, brk, blocks) && 0 <= kb < |blocks|
    requires q !in blocks && IsFree(h2, q) && !IsFree(h2, blocks[kb]) && IsFree(h, blocks[kb])
    requires forall m :: 0 <= m < |blocks| && m != kb ==> (IsFree(h2, blocks[m]) <==> IsFree(h, blocks[m]))
    ensures AllocSet(h2, Split(blocks, kb, q)) == AllocSet(h, blocks) + {blocks[kb]}
  {
    var nb := Split(blocks, kb, q);
    SplitAt(blocks, kb, q);
    Distinct(h, base, brk, blocks);
    forall b | b in nb ensures b in blocks || b == q {
      var i :| 0 <= i < |nb| && nb[i] == b;
    }
    forall b | b in blocks ensures b in nb {
      var m :| 0 <= m < |blocks| && blocks[m] == b;
      assert nb[if m <= kb then m else m + 1] == b;
    }
  }

  /** Allocated blocks kept across two steps are kept across both. */
  lemma KeptTrans(h0: seq<Word>, h1: seq<Word>, h2: seq<Word>, base: int, brk: int, b0: seq<int>, b1: seq<int>)
    requires Tiled(h0, base, brk, b0)
    requires AllocKept(h0, h1, b0) && AllocKept(h1, h2, b1)
    requires forall b :: b in b0 ==> b in b1
    ensures AllocKept(h0, h2, b0)
  {
    forall i | 0 <= i < |b0| && !IsFree(h0, b0[i]) ensures SpanSame(h0, h2, b0[i]) {
      var b := b0[i];
      BlockBounds(h0, base, brk, b0, b);
      assert InSpan(h0, b, HdrAddr(b));
      var j :| 0 <= j < |b1| && b1[j] == b;
      assert SpanSame(h1, h2, b1[j]);
    }
  }

  /** remove_list of node k (block kb) from a well-formed heap leaves that
      block detached, with every block's size and allocated bit as before. */
  lemma DetachNode(h0: seq<Word>, h1: seq<Word>, base: int, brk: int,
                   blocks: seq<int>, fl: seq<int>, k: int, kb: int, p: int)
    requires HeapOk(h0, base, brk, blocks, fl) && 0 <= k < |fl| && fl[k] == p
    requires 0 <= kb < |blocks| && blocks[kb] == p
    requires h1 == RemoveListWrites(h0, base, fl, k)
    ensures Detached(h1, base, brk, blocks, Without(fl, k), p) && Coalesced(h1, blocks)
    ensures AllocKept(h0, h1, blocks) && AllocSet(h1, blocks) == AllocSet(h0, blocks)
    ensures Sz(h1, p) == Sz(h0, p)
  {
    RemoveListKeeps(h0, base, brk, blocks, fl, k);
    Detach(h0, h1, base, brk, blocks, fl, k);
    assert Sz(h1, blocks[kb]) == Sz(h0, blocks[kb]);
  }

  /** place when the whole block is taken: remove_list, then both tags of p
      rewritten with the allocated bit set. */
  lemma PlaceWholeStep(h0: seq<Word>, h1: seq<Word>, h2: seq<Word>, base: int, brk: int,
                       blocks: seq<int>, fl: seq<int>, k: int, kb: int, p: int)
    requires HeapOk(h0, base, brk, blocks, fl) && 0 <= k < |fl| && fl[k] == p
    requires 0 <= kb < |blocks| && blocks[kb] == p
    requires h1 == RemoveListWrites(h0, base, fl, k)
    requires 0 <= HdrAddr(p) && FtrAddr(p, Sz(h0, p)) < |h0|
    requires h2 == SetTags(h1, p, Sz(h0, p), 1)
    ensures HeapOk(h2, base, brk, blocks, Without(fl, k))
    ensures Sz(h2, p) == Sz(h0, p) && !IsFree(h2, p)
    ensures AllocSet(h2, blocks) == AllocSet(h0, blocks) + {p}
    ensures AllocKept(h0, h2, blocks)
  {
    DetachNode(h0, h1, base, brk, blocks, fl, k, kb, p);
    AllocateWhole(h1, h2, base, brk, blocks, Without(fl, k), kb);
    KeptTrans(h0, h1, h2, base, brk, blocks, blocks);
  }

  /** The heaps place passes through when it splits block p (node k of the
      list fl, block kb of blocks): h1 after remove_list, h2 after p's tags
      are rewritten for `size` allocated bytes and the remainder q = p + size
      is tagged free with `rest` bytes. */
  ghost predicate SplitWritten(h0: seq<Word>, h1: seq<Word>, h2: seq<Word>, base: int, brk: int,
                               blocks: seq<int>, fl: seq<int>, k: int, kb: int,
                               p: int, size: int, q: int, rest: int)
  {
    HeapOk(h0, base, brk, blocks, fl) && 0 <= k < |fl| && fl[k] == p &&
    0 <= kb < |blocks| && blocks[kb] == p &&
    h1 == RemoveListWrites(h0, base, fl, k) &&
    8 <= p && q == p + size && q + rest <= |h1| <= WORD_LIMIT &&
    MIN_BLOCK <= size && size % 8 == 0 && rest == Sz(h0, p) - size && rest % 8 == 0 && rest >= MIN_BLOCK &&
    h2 == SetTags(SetTags(h1, p, size, 1), q, rest, 0)
  }

  /** place when the block is split: remove_list, then p's tags rewritten
      for `size` allocated bytes and the remainder q tagged free. */
  lemma PlaceSplitState(h0: seq<Word>, h1: seq<Word>, h2: seq<Word>, base: int, brk: int,
                        blocks: seq<int>, fl: seq<int>, k: int, kb: int,
                        p: int, size: int, q: int, rest: int)
    requires SplitWritten(h0, h1, h2, base, brk, blocks, fl, k, kb, p, size, q, rest)
    ensures var nb := Split(blocks, kb, q);
      Detached(h2, base, brk, nb, Without(fl, k), q) && Coalesced(h2, nb) &&
      AllocSet(h2, nb) == AllocSet(h0, blocks) + {p} &&
      (forall b :: b in blocks ==> b in nb) && p in nb
    ensures Sz(h2, p) == size && !IsFree(h2, p) && Sz(h2, q) == rest
    ensures AllocKept(h0, h2, blocks)
  {
    DetachNode(h0, h1, base, brk, blocks, fl, k, kb, p);
    AllocateSplit(h1, h2, base, brk, blocks, Without(fl, k), kb, p, size, q, rest);
    AllocateSplitKept(h1, h2, base, brk, blocks, kb, p, size, q, rest);
    KeptTrans(h0, h1, h2, base, brk, blocks, blocks);
    SplitMembers(blocks, kb, q);
  }

  /** After place's writes the remainder q may be pushed onto the list. */
  lemma PlaceSplitReady(h0: seq<Word>, h1: seq<Word>, h2: seq<Word>, base: int, brk: int,
                        blocks: seq<int>, fl: seq<int>, k: int, kb: int,
                        p: int, size: int, q: int, rest: int)
    requires SplitWritten(h0, h1, h2, base, brk, blocks, fl, k, kb, p, size, q, rest)
    ensures ListOk(h2, base, Without(fl, k)) && base + 16 <= q && q + 8 <= |h2|
  {
    PlaceSplitState(h0, h1, h2, base, brk, blocks, fl, k, kb, p, size, q, rest);
  }

  /** place's split ends with add_list on the remainder q, which restores
      the invariant with p allocated and q free and listed. */
  lemma PlaceSplitDone(h0: seq<Word>, h1: seq<Word>, h2: seq<Word>, h3: seq<Word>, base: int, brk: int,
                       blocks: seq<int>, fl: seq<int>, k: int, kb: int,
                       p: int, size: int, q: int, rest: int)
    requires SplitWritten(h0, h1, h2, base, brk, blocks, fl, k, kb, p, size, q, rest)
    requires ListOk(h2, base, Without(fl, k)) && base + 16 <= q && q + 8 <= |h2|
    requires h3 == AddListWrites(h2, base, Without(fl, k), q)
    ensures var nb := Split(blocks, kb, q);
      HeapOk(h3, base, brk, nb, [q] + Without(fl, k)) &&
      AllocSet(h3, nb) == AllocSet(h0, blocks) + {p} &&
      p in nb && q in nb
    ensures Sz(h3, p) == size && !IsFree(h3, p) && Sz(h3, q) == rest && IsFree(h3, q)
    ensures AllocKept(h0, h3, blocks)
  {
    PlaceSplitState(h0, h1, h2, base, brk, blocks, fl, k, kb, p, size, q, rest);
    var nb := Split(blocks, kb, q);
    SplitMembers(blocks, kb, q);
    AddListKeeps(h2, base, brk, nb, Without(fl, k), q);
    Attach(h2, h3, base, brk, nb, Without(fl, k), q);
    TouchesKeep(h2, h3, base, brk, nb);
    KeptTrans(h0, h2, h3, base, brk, blocks, nb);
  }
}
