/**
 * free at the level of heap sequences: clearing an allocated block's
 * allocated bit leaves a heap that coalesce accepts, and what free promises
 * once coalesce is done. The same framing serves memcpy and memset, which
 * write inside one allocated block's payload.
 */
module Release {
  import opened Tags
  import opened Layout
  import opened Retile
  import opened Steps
  import opened Coalescing

  /** Every block allocated in h, except p, is untouched in h2. */
  ghost predicate KeptBut(h: seq<Word>, h2: seq<Word>, blocks: seq<int>, p: int)
  {
    forall i :: 0 <= i < |blocks| && !IsFree(h, blocks[i]) && blocks[i] != p ==> SpanSame(h, h2, blocks[i])
  }

  /** What free(p) promises: p is no longer allocated, and nothing else
      that was allocated has changed. */
  ghost predicate Freed(h0: seq<Word>, b0: seq<int>, h: seq<Word>, blocks: seq<int>, p: int)
  {
    AllocSet(h, blocks) == AllocSet(h0, b0) - {p} && KeptBut(h0, h, b0, p)
  }

  /** Writes confined to allocated block kb keep the list, the epilogue,
      every other block's free bit and every other allocated block. */
  lemma ReleaseOutside(h: seq<Word>, h2: seq<Word>, base: int, brk: int, blocks: seq<int>, fl: seq<int>, kb: int)
    requires 0 <= kb < |blocks| && HeapOk(h, base, brk, blocks, fl) && !IsFree(h, blocks[kb])
    requires Within(h, h2, HdrAddr(blocks[kb]), HdrAddr(End(h, blocks[kb])))
    ensures ListOk(h2, base, fl) && Epilogue(h2, brk)
    ensures forall n :: 0 <= n < |fl| ==> IsFree(h2, fl[n])
    ensures forall i :: 0 <= i < |blocks| && i != kb ==>
      Sz(h2, blocks[i]) == Sz(h, blocks[i]) && (IsFree(h2, blocks[i]) <==> IsFree(h, blocks[i]))
    ensures KeptBut(h, h2, blocks, blocks[kb])
  {
    OutsideSame(h, h2, base, brk, blocks, kb, kb + 1);
    assert forall n :: 0 <= n < |fl| ==> fl[n] != blocks[kb] && IsFree(h, fl[n]);
    ListOutside(h, h2, base, brk, blocks, fl, kb, kb + 1);
  }

  /** With block kb's bit cleared and every other bit kept, only pairs
      that include kb can be both free, the listed blocks are the free
      ones but kb, and kb has left the allocated set. */
  lemma ReleaseBits(h: seq<Word>, h2: seq<Word>, base: int, brk: int, blocks: seq<int>, fl: seq<int>, kb: int)
    requires 0 <= kb < |blocks| && HeapOk(h, base, brk, blocks, fl) && !IsFree(h, blocks[kb]) && IsFree(h2, blocks[kb])
    requires forall i :: 0 <= i < |blocks| && i != kb ==> (IsFree(h2, blocks[i]) <==> IsFree(h, blocks[i]))
    requires forall n :: 0 <= n < |fl| ==> IsFree(h2, fl[n])
    ensures ListIn(h2, blocks, fl) && blocks[kb] !in fl
    ensures forall i :: 0 <= i < |blocks| && IsFree(h2, blocks[i]) && blocks[i] != blocks[kb] ==> blocks[i] in fl
    ensures forall i {:trigger BothFree(h2, blocks, i)} :: 0 <= i < |blocks| - 1 && BothFree(h2, blocks, i) ==>
      blocks[i] == blocks[kb] || blocks[i + 1] == blocks[kb]
    ensures AllocSet(h2, blocks) == AllocSet(h, blocks) - {blocks[kb]}
  {
    var p := blocks[kb];
    Distinct(h, base, brk, blocks);
    forall i | 0 <= i < |blocks| - 1 && i != kb && i + 1 != kb ensures !BothFree(h2, blocks, i) {
      assert !BothFree(h, blocks, i);
    }
    forall b | b in AllocSet(h2, blocks) ensures b in AllocSet(h, blocks) && b != p {
      var i :| 0 <= i < |blocks| && blocks[i] == b;
    }
    forall b | b in AllocSet(h, blocks) && b != p ensures b in AllocSet(h2, blocks) {
      var i :| 0 <= i < |blocks| && blocks[i] == b;
    }
  }

  /** free's tag writes: with the allocated bit of block kb cleared in its
      header and footer, the block is free and waiting for coalesce, and
      nothing else changed. */
  lemma ReleaseStep(h: seq<Word>, h2: seq<Word>, base: int, brk: int, blocks: seq<int>, fl: seq<int>, kb: int)
    requires 0 <= kb < |blocks| && HeapOk(h, base, brk, blocks, fl) && !IsFree(h, blocks[kb])
    requires 0 <= HdrAddr(blocks[kb]) && FtrAddr(blocks[kb], Sz(h, blocks[kb])) < |h|
    requires h2 == SetTags(h, blocks[kb], Sz(h, blocks[kb]), 0)
    ensures Detached(h2, base, brk, blocks, fl, blocks[kb]) && Sz(h2, blocks[kb]) == Sz(h, blocks[kb])
    ensures AllocSet(h2, blocks) == AllocSet(h, blocks) - {blocks[kb]}
    ensures KeptBut(h, h2, blocks, blocks[kb])
  {
    var p := blocks[kb];
    BlockBounds(h, base, brk, blocks, p);
    RunSize(h, base, brk, blocks, kb, kb + 1);
    TiledMerge(h, h2, base, brk, blocks, kb, kb + 1, Sz(h, p), 0);
    assert Merged(blocks, kb, kb + 1) == blocks;
    ReleaseOutside(h, h2, base, brk, blocks, fl, kb);
    ReleaseBits(h, h2, base, brk, blocks, fl, kb);
  }

  /** Once coalesce has absorbed the released block, free's promise holds. */
  lemma ReleaseDone(h0: seq<Word>, h1: seq<Word>, h: seq<Word>, base: int, brk: int,
                    b0: seq<int>, fl0: seq<int>, kb: int, b1: seq<int>, fl1: seq<int>, brk1: int,
                    blocks: seq<int>, fl: seq<int>, r: int)
    requires 0 <= kb < |b0| && Tiled(h0, base, brk, b0)
    requires AllocSet(h1, b0) == AllocSet(h0, b0) - {b0[kb]} && KeptBut(h0, h1, b0, b0[kb])
    requires b1 == b0 && fl1 == fl0 && brk1 == brk
    requires Absorbed(h1, b1, fl1, kb, h, base, brk1, blocks, fl, r)
    ensures Freed(h0, b0, h, blocks, b0[kb])
  {
    forall i | 0 <= i < |b0| && !IsFree(h0, b0[i]) && b0[i] != b0[kb] ensures SpanSame(h0, h, b0[i]) {
      var b := b0[i];
      assert b in AllocSet(h0, b0);
      assert SpanSame(h0, h1, b);
      BlockBounds(h0, base, brk, b0, b);
      assert InSpan(h0, b, HdrAddr(b));
      assert !IsFree(h1, b);
      assert SpanSame(h1, h, b);
    }
  }

  /** memcpy and memset into allocated block kb's payload: the heap check
      still holds and every other allocated block is untouched. */
  lemma PayloadWrite(h: seq<Word>, h2: seq<Word>, base: int, brk: int, blocks: seq<int>, fl: seq<int>, kb: int)
    requires 0 <= kb < |blocks| && HeapOk(h, base, brk, blocks, fl) && !IsFree(h, blocks[kb])
    requires Within(h, h2, blocks[kb], FtrAddr(blocks[kb], Sz(h, blocks[kb])))
    ensures HeapOk(h2, base, brk, blocks, fl)
    ensures Sz(h2, blocks[kb]) == Sz(h, blocks[kb]) && !IsFree(h2, blocks[kb])
    ensures AllocSet(h2, blocks) == AllocSet(h, blocks) && KeptBut(h, h2, blocks, blocks[kb])
  {
    var p := blocks[kb];
    BlockBounds(h, base, brk, blocks, p);
    RunSize(h, base, brk, blocks, kb, kb + 1);
    assert Within(h, h2, HdrAddr(p), HdrAddr(End(h, p)));
    ReleaseOutside(h, h2, base, brk, blocks, fl, kb);
    PayloadTags(h, h2, base, brk, blocks, kb);
    forall i | 0 <= i < |blocks| - 1 ensures !BothFree(h2, blocks, i) {
      assert !BothFree(h, blocks, i);
    }
    forall b | b in AllocSet(h2, blocks) ensures b in AllocSet(h, blocks) {
      var i :| 0 <= i < |blocks| && blocks[i] == b;
    }
    forall b | b in AllocSet(h, blocks) ensures b in AllocSet(h2, blocks) {
      var i :| 0 <= i < |blocks| && blocks[i] == b;
    }
  }

  /** A payload write keeps every tag, so the tiling stands. */
  lemma PayloadTags(h: seq<Word>, h2: seq<Word>, base: int, brk: int, blocks: seq<int>, kb: int)
    requires 0 <= kb < |blocks| && Tiled(h, base, brk, blocks)
    requires Within(h, h2, blocks[kb], FtrAddr(blocks[kb], Sz(h, blocks[kb])))
    requires forall i :: 0 <= i < |blocks| && i != kb ==> Sz(h2, blocks[i]) == Sz(h, blocks[i])
    ensures Tiled(h2, base, brk, blocks)
    ensures forall i :: 0 <= i < |blocks| ==> Sz(h2, blocks[i]) == Sz(h, blocks[i]) && (IsFree(h2, blocks[i]) <==> IsFree(h, blocks[i]))
  {
    var p := blocks[kb];
    BlockBounds(h, base, brk, blocks, p);
    assert At(h2, HdrAddr(p)) == At(h, HdrAddr(p));
    assert At(h2, FtrAddr(p, Sz(h, p))) == At(h, FtrAddr(p, Sz(h, p)));
    Separated(h, base, brk, blocks);
    forall i | 0 <= i < |blocks|
      ensures At(h2, HdrAddr(blocks[i])) == At(h, HdrAddr(blocks[i]))
      ensures At(h2, FtrAddr(blocks[i], Sz(h, blocks[i]))) == At(h, FtrAddr(blocks[i], Sz(h, blocks[i])))
    {
      if i != kb {
        BlockBounds(h, base, brk, blocks, blocks[i]);
        if i < kb { Ordered(h, base, brk, blocks, i, kb); } else { Ordered(h, base, brk, blocks, kb, i); }
      }
    }
    TiledFrame(h, h2, base, brk, blocks);
  }
}
