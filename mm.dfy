/**
 * The allocator of mm.c: an explicit free list with boundary tags over one
 * growable region. The region is memlib's fixed-capacity buffer, of which
 * the first `brk` bytes are in use; `heap[a]` is the 32-bit word at byte
 * address a (only 4-aligned addresses are ever used).
 */
module Mm {
  import opened Wrappers
  import opened Tags
  import opened Layout
  import opened Retile
  import opened Steps
  import opened Coalescing
  import opened Requests
  import opened Extending
  import opened Release
  import opened Promises

  class Allocator {
    /** memlib's region; its capacity is heap.Length bytes. */
    const heap: array<Word>
    /** memlib's break: the number of bytes handed out so far. */
    var brk: int
    /** free_listp: the address of the free-list sentinel. */
    var freeListP: int
    /** The blocks' payload addresses in address order. */
    ghost var blocks: seq<int>
    /** The free blocks' payload addresses in free-list order. */
    ghost var flist: seq<int>

    /** The heap check that mm_checkheap leaves empty. */
    ghost predicate Valid()
      reads this, heap
    {
      HeapOk(heap[..], freeListP, brk, blocks, flist)
    }

    /** The region: 32-bit offsets reach all of it, and the break is
        8-aligned within it. */
    ghost predicate Region()
      reads this
    {
      heap.Length <= WORD_LIMIT && 0 <= brk <= heap.Length && brk % 8 == 0
    }

    /** A fresh region of `capacity` bytes, nothing handed out yet, and
        free_listp still NULL (modelled as -1, an address outside the
        region). */
    constructor (capacity: nat)
      requires capacity <= WORD_LIMIT
      ensures heap.Length == capacity && brk == 0 && freeListP == -1
      ensures blocks == [] && flist == []
      ensures Region()
    {
      heap := new Word[capacity](_ => 0);
      brk := 0;
      freeListP := -1;
      blocks := [];
      flist := [];
    }

    /** mem_sbrk: hand out the next incr bytes of the region and return
        where they start, or fail (C's (void *)-1) when incr is negative or
        the bytes do not fit. */
    method Sbrk(incr: int) returns (r: Option<int>)
      modifies this`brk
      ensures 0 <= incr && old(brk) + incr <= heap.Length ==> r == Some(old(brk)) && brk == old(brk) + incr
      ensures !(0 <= incr && old(brk) + incr <= heap.Length) ==> r == None && brk == old(brk)
    {
      if incr < 0 || brk + incr > heap.Length {
        return None;
      }
      r := Some(brk);
      brk := brk + incr;
    }

    /** The header and footer writes that place, coalesce, extend_heap and
        free each make: PUT(HDRP(p), PACK(size, alloc)), then PUT(FTRP(p), ...)
        with FTRP reading the size just written. */
    method PutTags(p: int, size: int, alloc: int)
      requires 0 <= size < WORD_LIMIT && size % 8 == 0 && 0 <= alloc <= 1
      requires 0 <= HdrAddr(p) && FtrAddr(p, size) < heap.Length && HdrAddr(p) <= FtrAddr(p, size)
      modifies heap
      ensures heap[..] == SetTags(old(heap[..]), p, size, alloc)
    {
      heap[HdrAddr(p)] := Pack(size, alloc);
      heap[FtrAddr(p, size)] := Pack(size, alloc);
    }

    /** find_fit: walk the free list from the sentinel and return the first
        block that holds `size` bytes, or None (NULL) when there is none. */
    method FindFit(size: int) returns (r: Option<int>)
      requires ListOk(heap[..], freeListP, flist)
      ensures var k := FirstFit(heap[..], flist, size);
        r == if k < |flist| then Some(flist[k]) else None
    {
      ghost var h := heap[..];
      ListHead(h, freeListP, flist);
      var ptr := freeListP + heap[freeListP];
      ghost var i := 0;
      while ptr != freeListP
        invariant 0 <= i <= |flist|
        invariant ptr == if i < |flist| then flist[i] else freeListP
        invariant FirstFit(h, flist, size) == i + FirstFit(h, flist[i..], size)
        decreases |flist| - i
      {
        NodeLinks(h, freeListP, flist, i);
        if size <= GetSize(heap[ptr - WSIZE]) {
          assert FirstFit(h, flist[i..], size) == 0;
          return Some(ptr);
        }
        assert flist[i..][1..] == flist[i + 1..];
        assert FirstFit(h, flist[i..], size) == 1 + FirstFit(h, flist[i + 1..], size);
        ptr := freeListP + heap[ptr];
        i := i + 1;
      }
      assert flist[i..] == [];
      return None;
    }

    /** add_list: push block p onto the front of the free list. What the
        new links mean is stated by AddListKeeps. */
    method AddList(p: int)
      requires ListOk(heap[..], freeListP, flist) && heap.Length <= WORD_LIMIT
      requires freeListP + 16 <= p && p + 8 <= heap.Length
      modifies heap, this`flist
      ensures flist == [p] + old(flist)
      ensures heap[..] == AddListWrites(old(heap[..]), freeListP, old(flist), p)
    {
      ghost var h0, fl0 := heap[..], flist;
      ListHead(h0, freeListP, fl0);
      flist := [p] + flist;
      var succVal := heap[freeListP];
      var off: Word := p - freeListP;
      heap[p + WSIZE] := 0;
      heap[p] := succVal;
      heap[freeListP] := off;
      ghost var h1: seq<Word> := h0[p + WSIZE := 0];
      h1 := h1[p := succVal][freeListP := off];
      assert heap[..] == h1;
      if succVal != 0 {
        heap[freeListP + succVal + WSIZE] := off;
        assert heap[..] == h1[freeListP + succVal + WSIZE := off];
      }
      assert heap[..] == AddListWrites(h0, freeListP, fl0, p);
    }

    /** remove_list: unlink node k of the free list, patching its neighbours'
        links (the sentinel's successor word when it was the head). What the
        new links mean is stated by RemoveListKeeps. */
    method RemoveList(p: int, ghost k: int)
      requires ListOk(heap[..], freeListP, flist) && heap.Length <= WORD_LIMIT
      requires 0 <= k < |flist| && flist[k] == p
      modifies heap, this`flist
      ensures flist == Without(old(flist), k)
      ensures heap[..] == RemoveListWrites(old(heap[..]), freeListP, old(flist), k)
    {
      ghost var h0, fl0 := heap[..], flist;
      NodeLinks(h0, freeListP, fl0, k);
      flist := Without(flist, k);
      var predVal := heap[p + WSIZE];
      var succVal := heap[p];
      heap[freeListP + predVal] := succVal;
      if succVal != 0 {
        heap[freeListP + succVal + WSIZE] := predVal;
      }
      assert heap[..] == RemoveListWrites(h0, freeListP, fl0, k);
    }

    /** place: allocate `size` bytes at the front of listed free block p,
        taking the whole block when less than MIN_BLOCK bytes would be left
        over and otherwise splitting the rest off as a new free block. */
    method Place(p: int, size: int, ghost k: int)
      requires Valid()
      requires 0 <= k < |flist| && flist[k] == p
      requires MIN_BLOCK <= size && size % 8 == 0 && size <= Sz(heap[..], p)
      modifies heap, this`blocks, this`flist
      ensures Valid()
      ensures p in blocks && !IsFree(heap[..], p)
      ensures var bsize := old(Sz(heap[..], p));
        if bsize - size < MIN_BLOCK then Sz(heap[..], p) == bsize
        else Sz(heap[..], p) == size && NextAddr(p, size) in blocks &&
             IsFree(heap[..], NextAddr(p, size)) && Sz(heap[..], NextAddr(p, size)) == bsize - size
      ensures AllocSet(heap[..], blocks) == old(AllocSet(heap[..], blocks)) + {p}
      ensures AllocKept(old(heap[..]), heap[..], old(blocks))
      ensures Placed(old(heap[..]), old(blocks), heap[..], blocks, size, p)
    {
      ghost var h0, fl0, b0 := heap[..], flist, blocks;
      ghost var kb :| 0 <= kb < |blocks| && blocks[kb] == p;
      BlockBounds(h0, freeListP, brk, blocks, p);
      var bsize := GetSize(heap[HdrAddr(p)]);
      assert bsize == Sz(h0, p);
      if bsize - size < MIN_BLOCK {
        TakeWhole(p, bsize, k);
        PlaceWholeStep(h0, RemoveListWrites(h0, freeListP, fl0, k), heap[..], freeListP, brk, b0, fl0, k, kb, p);
      } else {
        PlaceSplit(p, size, bsize - size, k, kb);
      }
    }

    /** The splitting branch of Place: the first size bytes of the free
        block p are allocated and the remainder becomes a free block of its
        own, pushed on the free list. */
    method PlaceSplit(p: int, size: int, rest: int, ghost k: int, ghost kb: int)
      requires Valid()
      requires 0 <= k < |flist| && flist[k] == p && 0 <= kb < |blocks| && blocks[kb] == p
      requires MIN_BLOCK <= size && size % 8 == 0 && rest == Sz(heap[..], p) - size && rest >= MIN_BLOCK
      modifies heap, this`blocks, this`flist
      ensures Valid()
      ensures p in blocks && !IsFree(heap[..], p) && Sz(heap[..], p) == size
      ensures NextAddr(p, size) in blocks && IsFree(heap[..], NextAddr(p, size)) &&
              Sz(heap[..], NextAddr(p, size)) == rest
      ensures AllocSet(heap[..], blocks) == old(AllocSet(heap[..], blocks)) + {p}
      ensures AllocKept(old(heap[..]), heap[..], old(blocks))
    {
      ghost var h0, fl0, b0 := heap[..], flist, blocks;
      BlockBounds(h0, freeListP, brk, blocks, p);
      DiffAligned(Sz(h0, p), size);
      var q := NextAddr(p, size);
      Carve(p, size, rest, k);
      ghost var h2 := heap[..];
      ghost var h1 := RemoveListWrites(h0, freeListP, fl0, k);
      PlaceSplitReady(h0, h1, h2, freeListP, brk, b0, fl0, k, kb, p, size, q, rest);
      AddList(q);
      blocks := Split(b0, kb, q);
      PlaceSplitDone(h0, h1, h2, heap[..], freeListP, brk, b0, fl0, k, kb, p, size, q, rest);
    }

    /** The writes of place's first branch: unlink p and tag all of it
        allocated. */
    method TakeWhole(p: int, bsize: int, ghost k: int)
      requires ListOk(heap[..], freeListP, flist) && heap.Length <= WORD_LIMIT
      requires 0 <= k < |flist| && flist[k] == p
      requires 8 <= p && 0 < bsize < WORD_LIMIT && bsize % 8 == 0 && p + bsize <= heap.Length
      modifies heap, this`flist
      ensures flist == Without(old(flist), k)
      ensures heap[..] == SetTags(RemoveListWrites(old(heap[..]), freeListP, old(flist), k), p, bsize, 1)
    {
      RemoveList(p, k);
      PutTags(p, bsize, 1);
    }

    /** The writes of place's splitting branch before add_list: unlink p,
        then tag its first `size` bytes allocated and the `rest` after them
        free. */
    method Carve(p: int, size: int, rest: int, ghost k: int)
      requires ListOk(heap[..], freeListP, flist) && heap.Length <= WORD_LIMIT
      requires 0 <= k < |flist| && flist[k] == p
      requires 8 <= p && 0 < size && size % 8 == 0 && 0 < rest < WORD_LIMIT && rest % 8 == 0
      requires p + size + rest <= heap.Length
      modifies heap, this`flist
      ensures flist == Without(old(flist), k)
      ensures heap[..] == SetTags(SetTags(RemoveListWrites(old(heap[..]), freeListP, old(flist), k),
                                          p, size, 1), NextAddr(p, size), rest, 0)
    {
      RemoveList(p, k);
      PutTags(p, size, 1);
      PutTags(NextAddr(p, size), rest, 0);
    }

    /** coalesce: merge the detached free block p with whichever physical
        neighbours are free, put the result on the free list (unless it is
        the previous block, already there) and return it. When the next
        block is free, kn is its place on the old list, and the new list
        is the old one without it, with p pushed on the front when the
        previous block is allocated. */
    method Coalesce(p: int, ghost kb: int) returns (r: int, ghost kn: int)
      requires 0 <= kb < |blocks| && blocks[kb] == p && Detached(heap[..], freeListP, brk, blocks, flist, p)
      modifies heap, this`blocks, this`flist
      ensures Absorbed(old(heap[..]), old(blocks), old(flist), kb, heap[..], freeListP, brk, blocks, flist, r)
      ensures UnlinkedList(old(heap[..]), old(blocks), old(flist), kb, flist, kn)
    {
      ghost var h0 := heap[..];
      Neighbours(h0, freeListP, brk, blocks, kb);
      var pre := PrevAddr(p, GetSize(heap[p - DSIZE]));
      var next := NextAddr(p, GetSize(heap[HdrAddr(p)]));
      var preAlloc := GetAlloc(heap[HdrAddr(pre)]);
      var nextAlloc := GetAlloc(heap[HdrAddr(next)]);
      assert preAlloc == 1 <==> RunStart(h0, blocks, kb) == kb;
      assert nextAlloc == 1 <==> RunEnd(h0, blocks, kb) == kb + 1;
      if preAlloc == 1 && nextAlloc == 1 {
        r, kn := CoalesceAlone(p, kb);
      } else if preAlloc == 1 {
        r, kn := CoalesceNext(p, next, kb);
      } else if nextAlloc == 1 {
        r, kn := CoalescePrev(p, pre, kb);
      } else {
        r, kn := CoalesceBoth(p, pre, next, kb);
      }
    }

    /** Case 1: both neighbours allocated; p alone goes on the list. */
    method CoalesceAlone(p: int, ghost kb: int) returns (r: int, ghost kn: int)
      requires 0 <= kb < |blocks| && blocks[kb] == p && Detached(heap[..], freeListP, brk, blocks, flist, p)
      requires RunStart(heap[..], blocks, kb) == kb && RunEnd(heap[..], blocks, kb) == kb + 1
      modifies heap, this`flist
      ensures Absorbed(old(heap[..]), old(blocks), old(flist), kb, heap[..], freeListP, brk, blocks, flist, r)
      ensures UnlinkedList(old(heap[..]), old(blocks), old(flist), kb, flist, kn)
    {
      ghost var h0, fl0 := heap[..], flist;
      BlockBounds(h0, freeListP, brk, blocks, p);
      AddList(p);
      AloneStep(h0, heap[..], freeListP, brk, blocks, fl0, kb);
      r, kn := p, 0;
    }

    /** Case 2: only the next block free; it is unlinked and absorbed, and p
        goes on the list. */
    method CoalesceNext(p: int, next: int, ghost kb: int) returns (r: int, ghost kn: int)
      requires 0 <= kb < |blocks| && blocks[kb] == p && Detached(heap[..], freeListP, brk, blocks, flist, p)
      requires RunStart(heap[..], blocks, kb) == kb && RunEnd(heap[..], blocks, kb) == kb + 2
      requires next == blocks[kb + 1]
      modifies heap, this`blocks, this`flist
      ensures Absorbed(old(heap[..]), old(blocks), old(flist), kb, heap[..], freeListP, brk, blocks, flist, r)
      ensures UnlinkedList(old(heap[..]), old(blocks), old(flist), kb, flist, kn)
    {
      ghost var h0, fl0, b0 := heap[..], flist, blocks;
      ghost var gsize;
      kn, gsize := UnlinkPlan(h0, freeListP, brk, blocks, flist, kb, kb);
      UnlinkedListCases(h0, b0, fl0, kb, kn);
      var size := GetSize(heap[HdrAddr(p)]) + GetSize(heap[HdrAddr(next)]);
      assert size == gsize;
      ghost var h1 := RemoveListWrites(h0, freeListP, fl0, kn);
      ghost var h2 := SetTags(h1, p, size, 0);
      Absorb(next, kn, p, size);
      assert heap[..] == h2;
      NextReady(h0, h1, h2, freeListP, brk, b0, fl0, kb, kn, size);
      ghost var h3 := AddListWrites(h2, freeListP, Without(fl0, kn), p);
      AddList(p);
      assert heap[..] == h3;
      blocks := Merged(b0, kb, kb + 2);
      NextStep(h0, h1, h2, h3, freeListP, brk, b0, fl0, kb, kn, size);
      r := p;
    }

    /** Case 3: only the previous block free; its tags grow over p and it
        stays where it is on the list. */
    method CoalescePrev(p: int, pre: int, ghost kb: int) returns (r: int, ghost kn: int)
      requires 0 <= kb < |blocks| && blocks[kb] == p && Detached(heap[..], freeListP, brk, blocks, flist, p)
      requires RunStart(heap[..], blocks, kb) == kb - 1 && RunEnd(heap[..], blocks, kb) == kb + 1
      requires pre == blocks[kb - 1]
      modifies heap, this`blocks
      ensures Absorbed(old(heap[..]), old(blocks), old(flist), kb, heap[..], freeListP, brk, blocks, flist, r)
      ensures UnlinkedList(old(heap[..]), old(blocks), old(flist), kb, flist, kn)
    {
      ghost var h0, b0 := heap[..], blocks;
      ghost var gsize := PrevPlan(h0, freeListP, brk, blocks, flist, kb);
      var size := GetSize(heap[HdrAddr(pre)]) + GetSize(heap[HdrAddr(p)]);
      PutTags(pre, size, 0);
      blocks := Merged(b0, kb - 1, kb + 1);
      PrevStep(h0, heap[..], freeListP, brk, b0, flist, kb, size);
      r, kn := pre, 0;
    }

    /** Case 4: both neighbours free; next is unlinked and the previous
        block's tags grow over all three. */
    method CoalesceBoth(p: int, pre: int, next: int, ghost kb: int) returns (r: int, ghost kn: int)
      requires 0 <= kb < |blocks| && blocks[kb] == p && Detached(heap[..], freeListP, brk, blocks, flist, p)
      requires RunStart(heap[..], blocks, kb) == kb - 1 && RunEnd(heap[..], blocks, kb) == kb + 2
      requires pre == blocks[kb - 1] && next == blocks[kb + 1]
      modifies heap, this`blocks, this`flist
      ensures Absorbed(old(heap[..]), old(blocks), old(flist), kb, heap[..], freeListP, brk, blocks, flist, r)
      ensures UnlinkedList(old(heap[..]), old(blocks), old(flist), kb, flist, kn)
    {
      ghost var h0, fl0, b0 := heap[..], flist, blocks;
      ghost var gsize;
      kn, gsize := UnlinkPlan(h0, freeListP, brk, blocks, flist, kb, kb - 1);
      UnlinkedListCases(h0, b0, fl0, kb, kn);
      var size := GetSize(heap[HdrAddr(pre)]) + GetSize(heap[HdrAddr(p)]) + GetSize(heap[HdrAddr(next)]);
      assert size == gsize;
      ghost var h1 := RemoveListWrites(h0, freeListP, fl0, kn);
      Absorb(next, kn, pre, size);
      assert heap[..] == SetTags(h1, pre, size, 0);
      blocks := Merged(b0, kb - 1, kb + 2);
      BothStep(h0, h1, SetTags(h1, pre, size, 0), freeListP, brk, b0, fl0, kb, kn, size);
      r := pre;
    }

    /** The writes of cases 2 and 4 before add_list: unlink q, then tag the
        `size` bytes from t free. */
    method Absorb(q: int, ghost kn: int, t: int, size: int)
      requires ListOk(heap[..], freeListP, flist) && heap.Length <= WORD_LIMIT
      requires 0 <= kn < |flist| && flist[kn] == q
      requires 0 < size < WORD_LIMIT && size % 8 == 0 && 0 <= HdrAddr(t) && FtrAddr(t, size) < heap.Length
      modifies heap, this`flist
      ensures flist == Without(old(flist), kn)
      ensures heap[..] == SetTags(RemoveListWrites(old(heap[..]), freeListP, old(flist), kn), t, size, 0)
    {
      RemoveList(q, kn);
      PutTags(t, size, 0);
    }

    /** extend_heap: grow the region by `words` rounded up to an even count
        of words, make the new bytes a free block over the old epilogue with
        a new epilogue after it, and coalesce it with a free last block.
        When the region cannot grow, nothing changes and the result is
        None (NULL). */
    method ExtendHeap(words: nat) returns (r: Option<int>)
      requires Extensible(heap[..], freeListP, brk, blocks, flist) && words >= 4
      modifies this`brk, heap, this`blocks, this`flist
      ensures var size := ExtendBytes(words);
        old(brk) + size > heap.Length ==>
          r == None && brk == old(brk) && heap[..] == old(heap[..]) && blocks == old(blocks) && flist == old(flist)
      ensures old(brk) + ExtendBytes(words) <= heap.Length ==>
        r.Some? && Extended(old(heap[..]), old(blocks), old(flist), old(brk),
                            heap[..], freeListP, brk, blocks, flist, ExtendBytes(words), r.value)
    {
      var size := ExtendBytes(words);
      var ptr := Sbrk(size);
      if ptr.None? {
        return None;
      }
      var q := Grow(ptr.value, size);
      r := Some(q);
    }

    /** extend_heap once mem_sbrk has handed out the size bytes at p: the
        new free block, the new epilogue, and coalesce. */
    method Grow(p: int, size: int) returns (q: int)
      requires Extensible(heap[..], freeListP, p, blocks, flist)
      requires MIN_BLOCK <= size && size % 8 == 0 && brk == p + size <= heap.Length
      modifies heap, this`blocks, this`flist
      ensures Extended(old(heap[..]), old(blocks), old(flist), p, heap[..], freeListP, brk, blocks, flist, size, q)
    {
      ghost var h0, b0, fl0 := heap[..], blocks, flist;
      blocks := b0 + [p];
      PutBlock(p, size);
      ghost var h1 := heap[..];
      ExtendStep(h0, h1, freeListP, p, size, b0, fl0, blocks, brk);
      ghost var nb := blocks;
      ghost var kn;
      q, kn := Coalesce(p, |b0|);
      ExtendDone(h0, h1, heap[..], freeListP, p, size, b0, fl0, nb, brk, blocks, flist, q);
    }

    /** The writes of extend_heap before coalesce: the new block's tags
        and, found through NEXT_BLPR, the new epilogue. */
    method PutBlock(p: int, size: int)
      requires 8 <= p && MIN_BLOCK <= size < WORD_LIMIT && size % 8 == 0 && p + size <= heap.Length
      modifies heap
      ensures heap[..] == ExtendWrites(old(heap[..]), p, size)
    {
      PutTags(p, size, 0);
      heap[HdrAddr(NextAddr(p, GetSize(heap[HdrAddr(p)])))] := Pack(0, 1);
    }

    /** malloc: the first listed block that holds the adjusted size, or
        else a block made by growing the region by that size (at least
        CHUNKSIZE bytes), placed. None (NULL) when neither is possible,
        and then nothing has changed. */
    method Malloc(size: nat) returns (r: Option<int>)
      requires Valid()
      modifies this`brk, heap, this`blocks, this`flist
      ensures Valid()
      ensures Malloced(old(heap[..]), old(blocks), old(flist), heap[..], blocks, size, r)
      ensures r.None? <==>
        FirstFit(old(heap[..]), old(flist), AdjustedSize(size)) == |old(flist)| &&
        old(brk) + Max(AdjustedSize(size), CHUNKSIZE) > heap.Length
      ensures r.None? ==> brk == old(brk) && flist == old(flist)
    {
      var asize := AdjustedSize(size);
      ghost var h0, b0, fl0 := heap[..], blocks, flist;
      var fit := FindFit(asize);
      if fit.Some? {
        var p := fit.value;
        ghost var k := FirstFit(h0, fl0, asize);
        Place(p, asize, k);
        MallocDone(h0, b0, fl0, freeListP, old(brk), h0, b0, heap[..], blocks, size, p);
        return Some(p);
      }
      ExtendCovers(asize);
      var ext := ExtendHeap(Max(asize, CHUNKSIZE) / WSIZE);
      if ext.None? {
        return None;
      }
      var p := ext.value;
      ghost var h1, b1 := heap[..], blocks;
      ghost var k :| 0 <= k < |flist| && flist[k] == p;
      Place(p, asize, k);
      MallocDone(h0, b0, fl0, freeListP, old(brk), h1, b1, heap[..], blocks, size, p);
      r := Some(p);
    }

    /** free: nothing for NULL; otherwise clear the allocated bit in the
        block's header and footer and coalesce it with free neighbours. */
    method Free(ptr: Option<int>)
      requires Valid()
      requires ptr.Some? ==> ptr.value in AllocSet(heap[..], blocks)
      modifies heap, this`blocks, this`flist
      ensures Valid()
      ensures ptr.None? ==> heap[..] == old(heap[..]) && blocks == old(blocks) && flist == old(flist)
      ensures ptr.Some? ==> Freed(old(heap[..]), old(blocks), heap[..], blocks, ptr.value)
    {
      if ptr.None? {
        return;
      }
      var p := ptr.value;
      ghost var h0, b0, fl0 := heap[..], blocks, flist;
      ghost var kb :| 0 <= kb < |blocks| && blocks[kb] == p;
      BlockBounds(h0, freeListP, brk, blocks, p);
      var size := GetSize(heap[HdrAddr(p)]);
      PutTags(p, size, 0);
      ghost var h1 := heap[..];
      ReleaseStep(h0, h1, freeListP, brk, b0, fl0, kb);
      ghost var b1, fl1 := blocks, flist;
      var r, kn := Coalesce(p, kb);
      ReleaseDone(h0, h1, heap[..], freeListP, brk, b0, fl0, kb, b1, fl1, brk, blocks, flist, r);
    }

    /** realloc: free for size 0, malloc for NULL; otherwise a new block
        from malloc, the old payload copied into it (cut down to size),
        and the old block freed. When malloc fails the old block is left
        as it was and the result is None (NULL). */
    method Realloc(oldptr: Option<int>, size: nat) returns (r: Option<int>)
      requires Valid()
      requires oldptr.Some? ==> oldptr.value in AllocSet(heap[..], blocks)
      modifies this`brk, heap, this`blocks, this`flist
      ensures Valid()
      ensures size == 0 ==> r.None? && brk == old(brk)
      ensures size == 0 && oldptr.None? ==> heap[..] == old(heap[..]) && blocks == old(blocks) && flist == old(flist)
      ensures size == 0 && oldptr.Some? ==> Freed(old(heap[..]), old(blocks), heap[..], blocks, oldptr.value)
      ensures size > 0 ==> (r.None? <==>
        FirstFit(old(heap[..]), old(flist), AdjustedSize(size)) == |old(flist)| &&
        old(brk) + Max(AdjustedSize(size), CHUNKSIZE) > heap.Length)
      ensures size > 0 && oldptr.None? ==> Malloced(old(heap[..]), old(blocks), old(flist), heap[..], blocks, size, r)
      ensures size > 0 && r.None? ==>
        heap[..] == old(heap[..]) && blocks == old(blocks) && flist == old(flist) && brk == old(brk)
      ensures size > 0 && oldptr.Some? && r.Some? ==>
        Reallocated(old(heap[..]), old(blocks), heap[..], blocks, oldptr.value, size, r.value)
    {
      if size == 0 {
        Free(oldptr);
        return None;
      }
      if oldptr.None? {
        r := Malloc(size);
        return;
      }
      r := Move(oldptr.value, size);
    }

    /** The part of realloc that moves a live block: malloc a new block,
        copy the payload over, free the old one. */
    method Move(p: int, size: nat) returns (r: Option<int>)
      requires Valid()
      requires p in AllocSet(heap[..], blocks)
      requires size > 0
      modifies this`brk, heap, this`blocks, this`flist
      ensures Valid()
      ensures r.None? <==>
        FirstFit(old(heap[..]), old(flist), AdjustedSize(size)) == |old(flist)| &&
        old(brk) + Max(AdjustedSize(size), CHUNKSIZE) > heap.Length
      ensures r.None? ==>
        heap[..] == old(heap[..]) && blocks == old(blocks) && flist == old(flist) && brk == old(brk)
      ensures r.Some? ==> Reallocated(old(heap[..]), old(blocks), heap[..], blocks, p, size, r.value)
    {
      ghost var h0, b0, fl0, brk0 := heap[..], blocks, flist, brk;
      var newptr := Malloc(size);
      if newptr.None? {
        return None;
      }
      var q := newptr.value;
      ghost var h1, b1, fl1 := heap[..], blocks, flist;
      CopyFits(h0, b0, fl0, freeListP, brk0, h1, b1, brk, size, p, q);
      var n := CopyInto(p, q, size);
      ghost var h2, b2 := heap[..], blocks;
      Free(Some(p));
      ghost var h3, b3 := heap[..], blocks;
      ReallocDone(h0, b0, fl0, freeListP, brk0, h1, b2, h2, h3, b3, p, q, size, n);
      r := Some(q);
    }

    /** realloc's copy: the old payload, cut down to the request, into
        the new block q; nothing but q's payload changes. */
    method CopyInto(p: int, q: int, size: nat) returns (n: nat)
      requires Valid()
      requires p in AllocSet(heap[..], blocks) && q in AllocSet(heap[..], blocks)
      requires p + Sz(heap[..], p) <= q || q + Sz(heap[..], q) <= p
      requires CopyLen(heap[..], p, size) >= 0
      requires WSIZE * WordsFor(CopyLen(heap[..], p, size)) <= Sz(heap[..], q) - DSIZE
      modifies heap
      ensures Valid()
      ensures n == WordsFor(CopyLen(old(heap[..]), p, size)) && Copied(old(heap[..]), p, heap[..], q, n)
      ensures AllocSet(heap[..], blocks) == AllocSet(old(heap[..]), blocks)
      ensures KeptBut(old(heap[..]), heap[..], blocks, q)
      ensures Sz(heap[..], q) == Sz(old(heap[..]), q) && !IsFree(heap[..], q)
    {
      ghost var h1 := heap[..];
      BlockBounds(h1, freeListP, brk, blocks, p);
      BlockBounds(h1, freeListP, brk, blocks, q);
      WordsForFits(CopyLen(h1, p, size), Sz(h1, p));
      var oldsize := GetSize(heap[HdrAddr(p)]) - DSIZE;
      if size < oldsize {
        oldsize := size;
      }
      assert oldsize == CopyLen(h1, p, size);
      n := WordsFor(oldsize);
      CopyWords(q, p, n);
      ghost var kq :| 0 <= kq < |blocks| && blocks[kq] == q;
      PayloadWrite(h1, heap[..], freeListP, brk, blocks, flist, kq);
    }

    /** calloc: malloc(nmemb * size) with the payload cleared. A product
        that does not fit in a size_t gives None (NULL) and changes
        nothing. */
    method Calloc(nmemb: nat, size: nat) returns (r: Option<int>)
      requires Valid()
      modifies this`brk, heap, this`blocks, this`flist
      ensures Valid()
      ensures CallocBytes(nmemb, size).None? ==>
        r.None? && heap[..] == old(heap[..]) && blocks == old(blocks) && flist == old(flist) && brk == old(brk)
      ensures CallocBytes(nmemb, size).Some? ==>
        Malloced(old(heap[..]), old(blocks), old(flist), heap[..], blocks, CallocBytes(nmemb, size).value, r)
      ensures r.Some? ==> Zeroed(heap[..], r.value, WordsFor(nmemb * size))
    {
      var bytes := CallocBytes(nmemb, size);
      if bytes.None? {
        return None;
      }
      ghost var h0, b0, fl0, brk0 := heap[..], blocks, flist, brk;
      r := Malloc(bytes.value);
      if r.None? {
        return;
      }
      var q := r.value;
      ghost var h1, b1, fl1 := heap[..], blocks, flist;
      ghost var kq :| 0 <= kq < |b1| && b1[kq] == q;
      BlockBounds(h1, freeListP, brk, b1, q);
      WordsForFits(bytes.value, Sz(h1, q));
      ZeroWords(q, WordsFor(bytes.value));
      PayloadWrite(h1, heap[..], freeListP, brk, b1, fl1, kq);
      CallocDone(h0, b0, fl0, freeListP, brk0, h1, b1, heap[..], bytes.value, q);
    }

    /** memcpy(dst, src, 4 * n) on whole words, between regions that do
        not overlap. */
    method CopyWords(dst: int, src: int, n: nat)
      requires 0 <= dst && dst + WSIZE * n <= heap.Length && 0 <= src && src + WSIZE * n <= heap.Length
      requires src + WSIZE * n <= dst || dst + WSIZE * n <= src
      modifies heap
      ensures Copied(old(heap[..]), src, heap[..], dst, n)
      ensures Within(old(heap[..]), heap[..], dst, dst + WSIZE * n)
    {
      forall a | dst <= a < dst + WSIZE * n && (a - dst) % WSIZE == 0 {
        heap[a] := heap[src + (a - dst)];
      }
    }

    /** memset(dst, 0, 4 * n) on whole words. */
    method ZeroWords(dst: int, n: nat)
      requires 0 <= dst && dst + WSIZE * n <= heap.Length
      modifies heap
      ensures Zeroed(heap[..], dst, n)
      ensures Within(old(heap[..]), heap[..], dst, dst + WSIZE * n)
    {
      forall a | dst <= a < dst + WSIZE * n && (a - dst) % WSIZE == 0 {
        heap[a] := 0;
      }
    }

    /** mm_init: take 16 bytes for the sentinel word and the prologue, then
        a first chunk of CHUNKSIZE bytes as one free block. Returns 0, or -1
        when the region has no room for either. */
    method Init() returns (r: int)
      requires Region()
      modifies this`brk, this`freeListP, heap, this`blocks, this`flist
      ensures Region()
      ensures r == 0 <==> old(brk) + 4 * WSIZE + CHUNKSIZE <= heap.Length
      ensures r == -1 <==> old(brk) + 4 * WSIZE + CHUNKSIZE > heap.Length
      ensures old(brk) + 4 * WSIZE > heap.Length ==> freeListP == -1 && brk == old(brk)
      ensures r == 0 ==>
        Valid() && freeListP == old(brk) && blocks == [freeListP + 4 * WSIZE] && flist == blocks &&
        IsFree(heap[..], blocks[0]) && Sz(heap[..], blocks[0]) == CHUNKSIZE && brk == blocks[0] + CHUNKSIZE
    {
      var ptr := Sbrk(4 * WSIZE);
      if ptr.None? {
        freeListP := -1;
        return -1;
      }
      freeListP := ptr.value;
      ghost var h0 := heap[..];
      PutPrologue(freeListP);
      PrologueStep(h0, freeListP);
      blocks, flist := [], [];
      ghost var h1 := heap[..];
      var ext := ExtendHeap(CHUNKSIZE / WSIZE);
      if ext.None? {
        return -1;
      }
      FirstChunk(h1, freeListP + 4 * WSIZE, heap[..], freeListP, brk, blocks, flist, CHUNKSIZE, ext.value);
      r := 0;
    }

    /** mm_init's four writes: an empty free list (sentinel successor 0)
        and the prologue's header and footer. The fourth word, later the
        first block's header, is written as PACK(8, 1) too. */
    method PutPrologue(base: int)
      requires 0 <= base && base + 4 * WSIZE <= heap.Length
      modifies heap
      ensures heap[..] == PrologueWrites(old(heap[..]), base)
    {
      heap[base] := 0;
      heap[base + WSIZE] := Pack(ALIGNMENT, 1);
      heap[base + 2 * WSIZE] := Pack(ALIGNMENT, 1);
      heap[base + 3 * WSIZE] := Pack(ALIGNMENT, 1);
    }
  }
}
