/**
 * The heap, and the invariant that mm.c keeps between calls but never writes
 * down (its mm_checkheap is an empty stub).
 *
 * Addresses are byte offsets into the memory region. The heap is a sequence
 * indexed by byte address whose entry h[a] is the 32-bit word GET(a) reads
 * at address a; every tag, link and payload word the allocator touches is
 * 4-aligned, so the entries at the three addresses inside a word are never
 * used. A block is named by its payload address b: its
 * header is at b - 4, its footer at b + size - 8, so it spans the bytes
 * [b - 4, b + size - 4). Below the first block sit the free-list sentinel's
 * successor word (at base) and the prologue block (header at base + 4,
 * footer at base + 8); the epilogue header is the last word before brk.
 */
module Layout {
  import opened Wrappers
  import opened Tags

  /** GET: the word at byte address a, or 0 outside the region. */
  ghost function At(h: seq<Word>, a: int): Word
  {
    if 0 <= a < |h| then h[a] else 0
  }

  ghost function Sz(h: seq<Word>, b: int): Word { GetSize(At(h, HdrAddr(b))) }

  ghost predicate IsFree(h: seq<Word>, b: int) { GetAlloc(At(h, HdrAddr(b))) == 0 }

  /** A block's own tags: an aligned payload, a size that is a multiple of 8
      and at least MIN_BLOCK, a footer equal to the header, and nothing but the
      allocated bit among the three low bits. */
  ghost predicate BlockOk(h: seq<Word>, b: int)
  {
    b % 8 == 0 && 8 <= b &&
    Sz(h, b) >= MIN_BLOCK && b + Sz(h, b) <= |h| &&
    At(h, FtrAddr(b, Sz(h, b))) == At(h, HdrAddr(b)) &&
    At(h, HdrAddr(b)) % 8 <= 1
  }

  /** The blocks tile the region from base + 16 up to brk, in address order,
      each starting where the previous one ends; the prologue is in place. */
  ghost predicate Tiled(h: seq<Word>, base: int, brk: int, blocks: seq<int>)
  {
    |h| <= WORD_LIMIT &&
    0 <= base && base % 8 == 0 && base + 16 <= brk <= |h| && brk % 8 == 0 &&
    At(h, base + 4) == Pack(DSIZE, 1) && At(h, base + 8) == Pack(DSIZE, 1) &&
    (if |blocks| == 0 then brk == base + 16
     else blocks[0] == base + 16 && NextAddr(blocks[|blocks| - 1], Sz(h, blocks[|blocks| - 1])) == brk) &&
    (forall i :: 0 <= i < |blocks| ==> BlockOk(h, blocks[i])) &&
    (forall i :: 0 <= i < |blocks| - 1 ==> Linked(h, blocks, i))
  }

  /** Block i + 1 starts where block i ends. */
  ghost predicate Linked(h: seq<Word>, blocks: seq<int>, i: int)
    requires 0 <= i < |blocks| - 1
  {
    blocks[i + 1] == NextAddr(blocks[i], Sz(h, blocks[i]))
  }

  /** The epilogue header PACK(0, 1) is the last word before brk. */
  ghost predicate Epilogue(h: seq<Word>, brk: int)
  {
    At(h, brk - WSIZE) == Pack(0, 1)
  }

  /** No two physically adjacent blocks are both free. */
  ghost predicate Coalesced(h: seq<Word>, blocks: seq<int>)
  {
    forall i :: 0 <= i < |blocks| - 1 ==> !BothFree(h, blocks, i)
  }

  /** Blocks i and i + 1 are both free. */
  ghost predicate BothFree(h: seq<Word>, blocks: seq<int>, i: int)
    requires 0 <= i < |blocks| - 1
  {
    IsFree(h, blocks[i]) && IsFree(h, blocks[i + 1])
  }

  /** GET_SUCC_VAL: a free block's successor link is its first payload word. */
  ghost function SuccVal(h: seq<Word>, b: int): Word { At(h, b) }

  /** GET_PREV_VAL: its predecessor link is the second payload word. */
  ghost function PredVal(h: seq<Word>, b: int): Word { At(h, b + WSIZE) }

  /** The successor offset stored in free-list node i (0 after the last). */
  function SuccOf(fl: seq<int>, i: int, base: int): int
    requires 0 <= i < |fl|
  {
    if i + 1 < |fl| then fl[i + 1] - base else 0
  }

  /** The predecessor offset stored in free-list node i (0 before the first). */
  function PredOf(fl: seq<int>, i: int, base: int): int
    requires 0 <= i < |fl|
  {
    if i > 0 then fl[i - 1] - base else 0
  }

  /** The links in the heap spell out the list fl (whose nodes' link words
      do not overlap): the sentinel's successor
      word names fl[0], each node's successor word (payload + 0) names the
      next node and its predecessor word (payload + 4) the previous one, all
      as offsets from base, with 0 standing for the sentinel at both ends. */
  ghost predicate ListOk(h: seq<Word>, base: int, fl: seq<int>)
  {
    0 <= base < |h| &&
    (forall i :: 0 <= i < |fl| ==> base + 16 <= fl[i] && fl[i] + 8 <= |h|) &&
    (forall i, j :: 0 <= i < j < |fl| ==> fl[i] + 8 <= fl[j] || fl[j] + 8 <= fl[i]) &&
    SuccVal(h, base) == (if |fl| == 0 then 0 else fl[0] - base) &&
    (forall i {:trigger SuccVal(h, fl[i])} :: 0 <= i < |fl| ==> SuccVal(h, fl[i]) == SuccOf(fl, i, base)) &&
    (forall i {:trigger PredVal(h, fl[i])} :: 0 <= i < |fl| ==> PredVal(h, fl[i]) == PredOf(fl, i, base))
  }

  /** The list holds exactly the free blocks. */
  ghost predicate Tracks(h: seq<Word>, blocks: seq<int>, fl: seq<int>)
  {
    (forall i :: 0 <= i < |fl| ==> fl[i] in blocks && IsFree(h, fl[i])) &&
    (forall i :: 0 <= i < |blocks| && IsFree(h, blocks[i]) ==> blocks[i] in fl)
  }

  /** The heap invariant that holds between public calls. */
  ghost predicate HeapOk(h: seq<Word>, base: int, brk: int, blocks: seq<int>, fl: seq<int>)
  {
    Tiled(h, base, brk, blocks) && Epilogue(h, brk) && Coalesced(h, blocks) &&
    ListOk(h, base, fl) && Tracks(h, blocks, fl)
  }

  /** The payload addresses of the allocated blocks: what the caller holds. */
  ghost function AllocSet(h: seq<Word>, blocks: seq<int>): set<int>
  {
    set b | b in blocks && !IsFree(h, b)
  }

  // ---------------------------------------------------------------- ordering

  lemma {:induction false} Ordered(h: seq<Word>, base: int, brk: int, blocks: seq<int>, i: int, j: int)
    requires Tiled(h, base, brk, blocks)
    requires 0 <= i < j < |blocks|
    ensures blocks[i] + Sz(h, blocks[i]) <= blocks[j]
    decreases j - i
  {
    assert Linked(h, blocks, i);
    if j > i + 1 {
      Ordered(h, base, brk, blocks, i + 1, j);
    }
  }

  /** Blocks are laid out in strictly increasing, non-overlapping order
      between the prologue and the epilogue. */
  lemma Separated(h: seq<Word>, base: int, brk: int, blocks: seq<int>)
    requires Tiled(h, base, brk, blocks)
    ensures forall i, j :: 0 <= i < j < |blocks| ==> blocks[i] + Sz(h, blocks[i]) <= blocks[j]
    ensures forall i :: 0 <= i < |blocks| ==> base + 16 <= blocks[i] && blocks[i] + Sz(h, blocks[i]) <= brk
  {
    forall i, j | 0 <= i < j < |blocks| ensures blocks[i] + Sz(h, blocks[i]) <= blocks[j] {
      Ordered(h, base, brk, blocks, i, j);
    }
    forall i | 0 <= i < |blocks| ensures base + 16 <= blocks[i] && blocks[i] + Sz(h, blocks[i]) <= brk {
      if i > 0 { Ordered(h, base, brk, blocks, 0, i); }
      if i < |blocks| - 1 { Ordered(h, base, brk, blocks, i, |blocks| - 1); }
    }
  }

  /** A block lies between the prologue and brk, with room for its tags and
      both link words. */
  lemma BlockBounds(h: seq<Word>, base: int, brk: int, blocks: seq<int>, p: int)
    requires Tiled(h, base, brk, blocks) && p in blocks
    ensures base + 16 <= p && p % 8 == 0 && Sz(h, p) >= MIN_BLOCK && p + Sz(h, p) <= brk <= |h|
    ensures BlockOk(h, p)
  {
    Separated(h, base, brk, blocks);
  }

  /** Distinct positions hold distinct blocks. */
  lemma Distinct(h: seq<Word>, base: int, brk: int, blocks: seq<int>)
    requires Tiled(h, base, brk, blocks)
    ensures forall i, j :: 0 <= i < |blocks| && 0 <= j < |blocks| && i != j ==> blocks[i] != blocks[j]
  {
    Separated(h, base, brk, blocks);
  }

  /** No other position holds block k. */
  lemma DistinctFrom(h: seq<Word>, base: int, brk: int, blocks: seq<int>, k: int)
    requires Tiled(h, base, brk, blocks) && 0 <= k < |blocks|
    ensures forall m :: 0 <= m < |blocks| && m != k ==> blocks[m] != blocks[k]
  {
    forall m | 0 <= m < |blocks| && m != k ensures blocks[m] != blocks[k] {
      BlockBounds(h, base, brk, blocks, blocks[m]);
      if m < k { Ordered(h, base, brk, blocks, m, k); } else { Ordered(h, base, brk, blocks, k, m); }
    }
  }

  // ------------------------------------------------------------- framing

  /** Every free-list node is a free block of the heap. */
  ghost predicate ListIn(h: seq<Word>, blocks: seq<int>, fl: seq<int>)
  {
    forall i :: 0 <= i < |fl| ==> fl[i] in blocks && IsFree(h, fl[i])
  }

  /** h2 has the same prologue and the same header and footer words as h for
      every block. */
  ghost predicate SameTags(h: seq<Word>, h2: seq<Word>, base: int, blocks: seq<int>)
  {
    |h2| == |h| &&
    At(h2, base + 4) == At(h, base + 4) && At(h2, base + 8) == At(h, base + 8) &&
    forall i :: 0 <= i < |blocks| ==>
      At(h2, HdrAddr(blocks[i])) == At(h, HdrAddr(blocks[i])) &&
      At(h2, FtrAddr(blocks[i], Sz(h, blocks[i]))) == At(h, FtrAddr(blocks[i], Sz(h, blocks[i])))
  }

  /** Address a is one of block b's bytes, header to footer. */
  ghost predicate InSpan(h: seq<Word>, b: int, a: int)
  {
    HdrAddr(b) <= a < HdrAddr(NextAddr(b, Sz(h, b)))
  }

  /** Address a lies strictly between block b's header and footer. */
  ghost predicate InPayload(h: seq<Word>, b: int, a: int)
  {
    b <= a < FtrAddr(b, Sz(h, b))
  }

  /** Every word of block q, header to footer, is the same in h2 as in h. */
  ghost predicate SpanSame(h: seq<Word>, h2: seq<Word>, q: int)
  {
    |h2| == |h| &&
    forall w :: 0 <= w < |h| && InSpan(h, q, w) ==> h2[w] == h[w]
  }

  /** Allocated blocks, header, payload and footer, are untouched. */
  ghost predicate AllocKept(h: seq<Word>, h2: seq<Word>, blocks: seq<int>)
  {
    forall i :: 0 <= i < |blocks| && !IsFree(h, blocks[i]) ==> SpanSame(h, h2, blocks[i])
  }

  lemma TiledFrame(h: seq<Word>, h2: seq<Word>, base: int, brk: int, blocks: seq<int>)
    requires Tiled(h, base, brk, blocks) && SameTags(h, h2, base, blocks)
    ensures Tiled(h2, base, brk, blocks)
    ensures forall i :: 0 <= i < |blocks| ==>
      Sz(h2, blocks[i]) == Sz(h, blocks[i]) && (IsFree(h2, blocks[i]) <==> IsFree(h, blocks[i]))
  {
    forall i | 0 <= i < |blocks| - 1 ensures Linked(h2, blocks, i) {
      assert Linked(h, blocks, i);
    }
  }

  /** Word w lies in the payload of some free block. */
  ghost predicate InFreePayload(h: seq<Word>, blocks: seq<int>, w: int)
  {
    exists k :: 0 <= k < |blocks| && IsFree(h, blocks[k]) && InPayload(h, blocks[k], w)
  }

  /** h2 differs from h only in the sentinel's successor word and in the
      payloads of free blocks. */
  ghost predicate Touches(h: seq<Word>, h2: seq<Word>, base: int, blocks: seq<int>)
  {
    |h2| == |h| &&
    forall w :: 0 <= w < |h| && h2[w] != h[w] ==> w == base || InFreePayload(h, blocks, w)
  }

  /** The tag words of block i lie in no block's payload. */
  lemma TagsOutsidePayloads(h: seq<Word>, base: int, brk: int, blocks: seq<int>, i: int)
    requires Tiled(h, base, brk, blocks) && 0 <= i < |blocks|
    ensures forall k :: 0 <= k < |blocks| ==>
      !InPayload(h, blocks[k], HdrAddr(blocks[i])) &&
      !InPayload(h, blocks[k], FtrAddr(blocks[i], Sz(h, blocks[i])))
    ensures HdrAddr(blocks[i]) != base && FtrAddr(blocks[i], Sz(h, blocks[i])) != base
  {
    Separated(h, base, brk, blocks);
  }

  /** The words of block i lie in no other block's payload. */
  lemma SpanOutsideOtherPayloads(h: seq<Word>, base: int, brk: int, blocks: seq<int>, i: int, w: int)
    requires Tiled(h, base, brk, blocks) && 0 <= i < |blocks| && InSpan(h, blocks[i], w)
    ensures forall k :: 0 <= k < |blocks| && k != i ==> !InPayload(h, blocks[k], w)
    ensures w != base
  {
    Separated(h, base, brk, blocks);
  }

  /** Writing only into free payloads and the sentinel word keeps every tag
      and every allocated block. */
  lemma TouchesKeep(h: seq<Word>, h2: seq<Word>, base: int, brk: int, blocks: seq<int>)
    requires Tiled(h, base, brk, blocks) && Touches(h, h2, base, blocks)
    ensures SameTags(h, h2, base, blocks) && AllocKept(h, h2, blocks)
    ensures Tiled(h2, base, brk, blocks)
    ensures forall i :: 0 <= i < |blocks| ==>
      Sz(h2, blocks[i]) == Sz(h, blocks[i]) && (IsFree(h2, blocks[i]) <==> IsFree(h, blocks[i]))
    ensures At(h2, brk - WSIZE) == At(h, brk - WSIZE)
    ensures Coalesced(h2, blocks) <==> Coalesced(h, blocks)
  {
    Separated(h, base, brk, blocks);
    TouchesKeepTags(h, h2, base, brk, blocks);
    TiledFrame(h, h2, base, brk, blocks);
    assert forall i :: 0 <= i < |blocks| - 1 ==> (BothFree(h2, blocks, i) <==> BothFree(h, blocks, i));
    forall i | 0 <= i < |blocks| && !IsFree(h, blocks[i]) ensures SpanSame(h, h2, blocks[i]) {
      forall w | 0 <= w < |h| && InSpan(h, blocks[i], w) ensures h2[w] == h[w] {
        SpanOutsideOtherPayloads(h, base, brk, blocks, i, w);
      }
    }
  }

  lemma TouchesKeepTags(h: seq<Word>, h2: seq<Word>, base: int, brk: int, blocks: seq<int>)
    requires Tiled(h, base, brk, blocks) && Touches(h, h2, base, blocks)
    ensures SameTags(h, h2, base, blocks)
  {
    Separated(h, base, brk, blocks);
    forall i | 0 <= i < |blocks|
      ensures At(h2, HdrAddr(blocks[i])) == At(h, HdrAddr(blocks[i]))
      ensures At(h2, FtrAddr(blocks[i], Sz(h, blocks[i]))) == At(h, FtrAddr(blocks[i], Sz(h, blocks[i])))
    {
      TagsOutsidePayloads(h, base, brk, blocks, i);
    }
  }

  // ------------------------------------------------------------ free list

  /** The words add_list writes: the new node's predecessor (0) and successor
      (the old head), the sentinel's successor, and, when the list was not
      empty, the old head's predecessor. */
  ghost function AddListWrites(h: seq<Word>, base: int, fl: seq<int>, p: int): seq<Word>
    requires ListOk(h, base, fl) && 0 <= base && base + 16 <= p && p + 8 <= |h| <= WORD_LIMIT
  {
    var h1 := h[p + 4 := 0][p := At(h, base)][base := p - base];
    if fl == [] then h1 else h1[fl[0] + 4 := p - base]
  }

  lemma AddListLinks(h: seq<Word>, base: int, fl: seq<int>, p: int)
    requires ListOk(h, base, fl) && |h| <= WORD_LIMIT
    requires base + 16 <= p && p + 8 <= |h|
    requires forall i :: 0 <= i < |fl| ==> p + 8 <= fl[i] || fl[i] + 8 <= p
    ensures ListOk(AddListWrites(h, base, fl, p), base, [p] + fl)
  {
    AddListSucc(h, base, fl, p);
    AddListPred(h, base, fl, p);
  }

  lemma AddListSucc(h: seq<Word>, base: int, fl: seq<int>, p: int)
    requires ListOk(h, base, fl) && |h| <= WORD_LIMIT
    requires base + 16 <= p && p + 8 <= |h|
    requires forall i :: 0 <= i < |fl| ==> p + 8 <= fl[i] || fl[i] + 8 <= p
    ensures forall i :: 0 <= i < |fl| + 1 ==>
      SuccVal(AddListWrites(h, base, fl, p), ([p] + fl)[i]) == SuccOf([p] + fl, i, base)
  {
    var h2 := AddListWrites(h, base, fl, p);
    var fl2 := [p] + fl;
    forall i | 0 <= i < |fl2| ensures SuccVal(h2, fl2[i]) == SuccOf(fl2, i, base) {
      if i > 0 {
        assert fl2[i] == fl[i - 1];
        assert SuccVal(h, fl[i - 1]) == SuccOf(fl, i - 1, base);
        if i > 1 { assert fl[0] + 8 <= fl[i - 1] || fl[i - 1] + 8 <= fl[0]; }
      }
    }
  }

  lemma AddListPred(h: seq<Word>, base: int, fl: seq<int>, p: int)
    requires ListOk(h, base, fl) && |h| <= WORD_LIMIT
    requires base + 16 <= p && p + 8 <= |h|
    requires forall i :: 0 <= i < |fl| ==> p + 8 <= fl[i] || fl[i] + 8 <= p
    ensures forall i :: 0 <= i < |fl| + 1 ==>
      PredVal(AddListWrites(h, base, fl, p), ([p] + fl)[i]) == PredOf([p] + fl, i, base)
  {
    var h2 := AddListWrites(h, base, fl, p);
    var fl2 := [p] + fl;
    forall i | 0 <= i < |fl2| ensures PredVal(h2, fl2[i]) == PredOf(fl2, i, base) {
      if i == 0 {
        if fl != [] { assert p + 8 <= fl[0] || fl[0] + 8 <= p; }
      } else if i > 1 {
        assert fl2[i] == fl[i - 1] && fl2[i - 1] == fl[i - 2];
        assert PredVal(h, fl[i - 1]) == PredOf(fl, i - 1, base);
        assert fl[0] + 8 <= fl[i - 1] || fl[i - 1] + 8 <= fl[0];
      }
    }
  }

  /** A block that is not on the list keeps its link words clear of every
      listed block's. */
  lemma ApartFromList(h: seq<Word>, base: int, brk: int, blocks: seq<int>, fl: seq<int>, p: int)
    requires Tiled(h, base, brk, blocks) && ListIn(h, blocks, fl)
    requires p in blocks && p !in fl
    ensures forall i :: 0 <= i < |fl| ==> p + 8 <= fl[i] || fl[i] + 8 <= p
  {
    Separated(h, base, brk, blocks);
  }

  /** add_list writes only the sentinel word and the link words of the new
      node and of the old head, all inside free payloads. */
  lemma AddListTouches(h: seq<Word>, base: int, brk: int, blocks: seq<int>, fl: seq<int>, p: int)
    requires Tiled(h, base, brk, blocks) && ListOk(h, base, fl) && ListIn(h, blocks, fl)
    requires p in blocks && IsFree(h, p) && p !in fl
    ensures base + 16 <= p && p + 8 <= |h|
    ensures Touches(h, AddListWrites(h, base, fl, p), base, blocks)
  {
    Separated(h, base, brk, blocks);
    var kp :| 0 <= kp < |blocks| && blocks[kp] == p;
    assert InPayload(h, p, p) && InPayload(h, p, p + 4);
    if fl != [] {
      var k0 :| 0 <= k0 < |blocks| && blocks[k0] == fl[0];
      assert InPayload(h, fl[0], fl[0] + 4);
    }
  }

  /** Everything add_list promises, about the words it writes. */
  lemma AddListKeeps(h: seq<Word>, base: int, brk: int, blocks: seq<int>, fl: seq<int>, p: int)
    requires Tiled(h, base, brk, blocks) && ListOk(h, base, fl) && ListIn(h, blocks, fl)
    requires p in blocks && IsFree(h, p) && p !in fl
    ensures base + 16 <= p && p + 8 <= |h|
    ensures var h2 := AddListWrites(h, base, fl, p);
      ListOk(h2, base, [p] + fl) && ListIn(h2, blocks, [p] + fl) &&
      Touches(h, h2, base, blocks) && SameTags(h, h2, base, blocks) && Tiled(h2, base, brk, blocks) && AllocKept(h, h2, blocks)
  {
    AddListTouches(h, base, brk, blocks, fl, p);
    ApartFromList(h, base, brk, blocks, fl, p);
    AddListLinks(h, base, fl, p);
    TouchesKeep(h, AddListWrites(h, base, fl, p), base, brk, blocks);
  }

  /** The link words of node k hold its neighbours' offsets. */
  lemma NodeLinks(h: seq<Word>, base: int, fl: seq<int>, k: int)
    requires ListOk(h, base, fl) && 0 <= k < |fl|
    ensures 0 <= fl[k] && fl[k] + WSIZE < |h|
    ensures h[fl[k]] == SuccOf(fl, k, base) && h[fl[k] + WSIZE] == PredOf(fl, k, base)
    ensures 0 <= base + PredOf(fl, k, base) < |h|
    ensures SuccOf(fl, k, base) != 0 ==> 0 <= base + SuccOf(fl, k, base) + WSIZE < |h|
  {
    assert SuccVal(h, fl[k]) == SuccOf(fl, k, base);
    assert PredVal(h, fl[k]) == PredOf(fl, k, base);
  }

  /** The sentinel's successor word names the head, or is 0 when the list
      is empty. */
  lemma ListHead(h: seq<Word>, base: int, fl: seq<int>)
    requires ListOk(h, base, fl)
    ensures h[base] == (if fl == [] then 0 else fl[0] - base)
    ensures fl != [] ==> 0 <= fl[0] && fl[0] + WSIZE < |h|
  {
  }

  /** First fit: the position of the first node of fl, in list order, whose
      block holds at least `size` bytes, or |fl| when no node is that large. */
  ghost function FirstFit(h: seq<Word>, fl: seq<int>, size: int): (k: nat)
    ensures k <= |fl|
    ensures forall j :: 0 <= j < k ==> Sz(h, fl[j]) < size
    ensures k < |fl| ==> size <= Sz(h, fl[k])
    decreases |fl|
  {
    if fl == [] then 0
    else if size <= Sz(h, fl[0]) then 0
    else 1 + FirstFit(h, fl[1..], size)
  }

  /** The list fl without its node k. */
  function Without(fl: seq<int>, k: int): (r: seq<int>)
    requires 0 <= k < |fl|
    ensures |r| == |fl| - 1
    ensures forall i :: 0 <= i < k ==> r[i] == fl[i]
    ensures forall i :: k <= i < |r| ==> r[i] == fl[i + 1]
  {
    fl[..k] + fl[k + 1..]
  }

  /** Dropping node k removes exactly that address from the list (whose
      nodes are at least 8 bytes apart). */
  lemma WithoutMembers(fl: seq<int>, k: int)
    requires 0 <= k < |fl|
    requires forall i, j :: 0 <= i < j < |fl| ==> fl[i] + 8 <= fl[j] || fl[j] + 8 <= fl[i]
    ensures fl[k] !in Without(fl, k)
    ensures forall x :: x in fl && x != fl[k] ==> x in Without(fl, k)
    ensures forall x :: x in Without(fl, k) ==> x in fl
  {
    var fl1 := Without(fl, k);
    forall n | 0 <= n < |fl1| ensures fl1[n] != fl[k] {
      var n' := if n < k then n else n + 1;
      assert fl[n'] + 8 <= fl[k] || fl[k] + 8 <= fl[n'];
    }
    forall x | x in fl && x != fl[k] ensures x in fl1 {
      var n :| 0 <= n < |fl| && fl[n] == x;
      assert fl1[if n < k then n else n - 1] == x;
    }
  }

  /** The words remove_list writes for node k: its predecessor's successor
      link (the sentinel word when k is the head) and, unless k is the last
      node, its successor's predecessor link. */
  ghost function RemoveListWrites(h: seq<Word>, base: int, fl: seq<int>, k: int): seq<Word>
    requires ListOk(h, base, fl) && |h| <= WORD_LIMIT && 0 <= k < |fl|
  {
    var pred: Word := PredOf(fl, k, base);
    var succ: Word := SuccOf(fl, k, base);
    var h1 := h[base + pred := succ];
    if succ == 0 then h1 else h1[base + succ + WSIZE := pred]
  }

  lemma RemoveListSucc(h: seq<Word>, base: int, fl: seq<int>, k: int)
    requires ListOk(h, base, fl) && |h| <= WORD_LIMIT && 0 <= k < |fl|
    ensures var h2 := RemoveListWrites(h, base, fl, k); var nl := Without(fl, k);
      SuccVal(h2, base) == (if |nl| == 0 then 0 else nl[0] - base) &&
      forall i :: 0 <= i < |nl| ==> SuccVal(h2, nl[i]) == SuccOf(nl, i, base)
  {
    var h2 := RemoveListWrites(h, base, fl, k);
    var nl := Without(fl, k);
    forall i | 0 <= i < |nl| ensures SuccVal(h2, nl[i]) == SuccOf(nl, i, base) {
      if i < k - 1 {
        assert SuccVal(h, fl[i]) == SuccOf(fl, i, base);
        assert fl[i] + 8 <= fl[k - 1] || fl[k - 1] + 8 <= fl[i];
        if k + 1 < |fl| { assert fl[i] + 8 <= fl[k + 1] || fl[k + 1] + 8 <= fl[i]; }
      } else if i >= k {
        assert SuccVal(h, fl[i + 1]) == SuccOf(fl, i + 1, base);
        if k > 0 { assert fl[i + 1] + 8 <= fl[k - 1] || fl[k - 1] + 8 <= fl[i + 1]; }
        if k + 1 < i + 1 { assert fl[i + 1] + 8 <= fl[k + 1] || fl[k + 1] + 8 <= fl[i + 1]; }
      }
    }
  }

  lemma RemoveListPred(h: seq<Word>, base: int, fl: seq<int>, k: int)
    requires ListOk(h, base, fl) && |h| <= WORD_LIMIT && 0 <= k < |fl|
    ensures var h2 := RemoveListWrites(h, base, fl, k); var nl := Without(fl, k);
      forall i :: 0 <= i < |nl| ==> PredVal(h2, nl[i]) == PredOf(nl, i, base)
  {
    var h2 := RemoveListWrites(h, base, fl, k);
    var nl := Without(fl, k);
    forall i | 0 <= i < |nl| ensures PredVal(h2, nl[i]) == PredOf(nl, i, base) {
      if i < k {
        assert PredVal(h, fl[i]) == PredOf(fl, i, base);
        if k > 0 { assert fl[i] + 8 <= fl[k - 1] || fl[k - 1] + 8 <= fl[i] || i == k - 1; }
        if k + 1 < |fl| { assert fl[i] + 8 <= fl[k + 1] || fl[k + 1] + 8 <= fl[i]; }
      } else if i > k {
        assert PredVal(h, fl[i + 1]) == PredOf(fl, i + 1, base);
        if k > 0 { assert fl[i + 1] + 8 <= fl[k - 1] || fl[k - 1] + 8 <= fl[i + 1]; }
        assert fl[i + 1] + 8 <= fl[k + 1] || fl[k + 1] + 8 <= fl[i + 1];
      }
    }
  }

  lemma RemoveListLinks(h: seq<Word>, base: int, fl: seq<int>, k: int)
    requires ListOk(h, base, fl) && |h| <= WORD_LIMIT && 0 <= k < |fl|
    ensures ListOk(RemoveListWrites(h, base, fl, k), base, Without(fl, k))
  {
    RemoveListSucc(h, base, fl, k);
    RemoveListPred(h, base, fl, k);
    WithoutApart(fl, k);
    var h2, nl := RemoveListWrites(h, base, fl, k), Without(fl, k);
    assert |h2| == |h|;
    forall i | 0 <= i < |nl| ensures base + 16 <= nl[i] && nl[i] + 8 <= |h2| {
      if i < k { assert nl[i] == fl[i]; } else { assert nl[i] == fl[i + 1]; }
    }
  }

  /** Dropping a node keeps the remaining nodes' link words apart. */
  lemma WithoutApart(fl: seq<int>, k: int)
    requires 0 <= k < |fl|
    requires forall i, j :: 0 <= i < j < |fl| ==> fl[i] + 8 <= fl[j] || fl[j] + 8 <= fl[i]
    ensures var nl := Without(fl, k);
      forall i, j :: 0 <= i < j < |nl| ==> nl[i] + 8 <= nl[j] || nl[j] + 8 <= nl[i]
  {
    var nl := Without(fl, k);
    forall i, j | 0 <= i < j < |nl| ensures nl[i] + 8 <= nl[j] || nl[j] + 8 <= nl[i] {
      var i' := if i < k then i else i + 1;
      var j' := if j < k then j else j + 1;
      assert fl[i'] + 8 <= fl[j'] || fl[j'] + 8 <= fl[i'];
    }
  }

  /** remove_list writes only the sentinel word and link words of listed,
      hence free, blocks. */
  lemma RemoveListTouches(h: seq<Word>, base: int, brk: int, blocks: seq<int>, fl: seq<int>, k: int)
    requires Tiled(h, base, brk, blocks) && ListOk(h, base, fl) && ListIn(h, blocks, fl)
    requires 0 <= k < |fl|
    ensures Touches(h, RemoveListWrites(h, base, fl, k), base, blocks)
  {
    if k > 0 {
      var m :| 0 <= m < |blocks| && blocks[m] == fl[k - 1];
      assert InPayload(h, fl[k - 1], fl[k - 1]);
    }
    if k + 1 < |fl| {
      var m :| 0 <= m < |blocks| && blocks[m] == fl[k + 1];
      assert InPayload(h, fl[k + 1], fl[k + 1] + WSIZE);
    }
  }

  /** Everything remove_list promises, about the words it writes. */
  lemma RemoveListKeeps(h: seq<Word>, base: int, brk: int, blocks: seq<int>, fl: seq<int>, k: int)
    requires Tiled(h, base, brk, blocks) && ListOk(h, base, fl) && ListIn(h, blocks, fl)
    requires 0 <= k < |fl|
    ensures var h2 := RemoveListWrites(h, base, fl, k);
      ListOk(h2, base, Without(fl, k)) && ListIn(h2, blocks, Without(fl, k)) &&
      Touches(h, h2, base, blocks) && SameTags(h, h2, base, blocks) &&
      Tiled(h2, base, brk, blocks) && AllocKept(h, h2, blocks)
  {
    RemoveListTouches(h, base, brk, blocks, fl, k);
    RemoveListLinks(h, base, fl, k);
    TouchesKeep(h, RemoveListWrites(h, base, fl, k), base, brk, blocks);
  }
}
