/** The allocator itself, working on raw memory words.  The ghost field `heap` is the
    abstract heap that memory represents; every method states its effect on it. */
module MM {

  import opened Bits
  import opened Tiles
  import opened FreeList
  import H = HeapModel
  import opened Common
  import opened MemLib
  import opened Layout

  // ---------- reading tags ----------

  /** A block small enough for its tag to be a word. */
  ghost predicate Taggable(b: Block) { Aligned(b.size) && 0 <= b.size < WORD_LIMIT - 1 }

  lemma TagFields(b: Block)
    requires Taggable(b)
    ensures 0 <= Tag(b) < WORD_LIMIT && GetSize(Tag(b)) == b.size
    ensures IsAllocated(Tag(b)) == if b.alloc then 1 else 0
  {
    HeaderFields(b.size, if b.alloc then 1 else 0);
  }

  lemma BlockWords(m: Memory, t: Tiles, x: int)
    requires m.Valid() && Tiling(t) && t.lo == m.start + 8 && t.hi <= m.start + MAX_HEAP
    requires x in t.blocks
    ensures 0 < x < WORD_LIMIT && 8 <= t.blocks[x].size && Taggable(t.blocks[x])
    ensures m.Addr(x - 4) && m.Addr(x + t.blocks[x].size - 8) && m.Addr(x + t.blocks[x].size - 4)
    ensures x != t.lo ==> m.Addr(x) && m.Addr(x + 4)
  {
    assert Placed(t, x);
    var size := t.blocks[x].size;
    AlignedSum(x, size);
    AlignedWords(x);
    AlignedWords(x + size);
  }

  function TwoWrites(w: Words, a: int, b: int, v: Word): Words { w[a := v][b := v] }

  /** Between `s` and `e` lies one free block, by its two tags; nothing outside was written. */
  ghost predicate RunTagged(w: Words, w': Words, s: int, e: int) {
    OnlyIn(w, w', s - 4, e - 4) && At(w', s - 4) == At(w', e - 8) == e - s
  }

  lemma OuterTags(w: Words, w': Words, s: int, e: int)
    requires 8 <= e - s < WORD_LIMIT
    requires w' == TwoWrites(w, s - 4, e - 8, e - s) || w' == TwoWrites(w, e - 8, s - 4, e - s)
    ensures RunTagged(w, w', s, e)
  {
  }

  lemma AlreadyTagged(w: Words, s: int, e: int)
    requires At(w, s - 4) == At(w, e - 8) == e - s
    ensures RunTagged(w, w, s, e)
  {
  }

  /** The words after `mm_init` wrote the padding, the prologue and the first epilogue. */
  function PrologueWords(w: Words, base: int): Words {
    w[base := 0][base + 4 := 9][base + 8 := 9][base + 12 := 1]
  }

  /** The words after `extend_heap` wrote its three tags. */
  function GrownWords(w: Words, bp: int, size: Word): Words {
    w[bp - 4 := size][bp + size - 8 := size][bp + size - 4 := 1]
  }

  class Allocator {
    const m: Memory
    var heapPtr: int
    var freeList: Word
    ghost var heap: H.Heap

    /** Memory represents `heap`, whose break is the memory system's. */
    ghost predicate Mapped(but: int)
      reads this, m, m.bytes
    {
      && m.Valid()
      && RepBut(m.words, freeList, heap, but)
      && heap.t.lo == m.start + 8 && heap.t.hi == m.brk
      && 0 <= heap.stale <= m.start + MAX_HEAP - 8
    }

    /** What holds between calls. */
    ghost predicate Valid()
      reads this, m, m.bytes
    {
      Mapped(0) && H.Inv(heap)
    }

    /** The globals before the first `mm_init`. */
    constructor (memory: Memory)
      ensures m == memory && heapPtr == 0 && freeList == 0
    {
      m, heapPtr, freeList := memory, 0, 0;
      heap := H.Heap(Tiles(0, 0, map[]), [], 0);
    }

    // ---------- macros ----------

    /** `get_size(get_header_ptr(p))`, where the header is that of `b`. */
    method SizeOf(p: int, ghost b: Block) returns (size: Word)
      requires m.Valid() && m.Addr(p - 4) && Taggable(b) && At(m.words, p - 4) == Tag(b)
      ensures size == b.size
    {
      hide View, GetSize;
      TagFields(b);
      var v := m.GetVal(p - 4);
      size := GetSize(v);
    }

    /** `is_free(get_header_ptr(p))`, where the header is that of `b`. */
    method IsFree(p: int, ghost b: Block) returns (free: bool)
      requires m.Valid() && m.Addr(p - 4) && Taggable(b) && At(m.words, p - 4) == Tag(b)
      ensures free == !b.alloc
    {
      hide View, IsAllocated;
      TagFields(b);
      var v := m.GetVal(p - 4);
      free := IsAllocated(v) == 0;
    }

    /** `get_size(get_footer_ptr(p))`, where the header and footer are those of `b`. */
    method FooterSize(p: int, ghost b: Block) returns (size: Word)
      requires m.Valid() && m.Addr(p - 4) && m.Addr(p + b.size - 8) && Taggable(b)
      requires At(m.words, p - 4) == Tag(b) && At(m.words, p + b.size - 8) == Tag(b)
      ensures size == b.size
    {
      hide View, GetSize;
      TagFields(b);
      var offset := SizeOf(p, b);
      var v := m.GetVal(p + offset - 8);
      size := GetSize(v);
    }

    /** `set_next_free_block_ptr`. */
    method SetNextFree(p: Word, v: Word)
      requires m.Valid() && (p == 0 || m.Addr(p))
      modifies m`words, m.bytes
      ensures m.Valid() && m.words == PutNext(old(m.words), p, v)
    {
      if p == 0 { return; }
      m.SetVal(p, v);
    }

    /** `set_prev_free_block_ptr`. */
    method SetPrevFree(p: Word, v: Word)
      requires m.Valid() && (p == 0 || m.Addr(p + 4))
      modifies m`words, m.bytes
      ensures m.Valid() && m.words == PutPrev(old(m.words), p, v)
    {
      if p == 0 { return; }
      m.SetVal(p + 4, v);
    }

    // ---------- the free list ----------

    lemma LinkAddresses(x: int)
      requires m.Valid() && H.Wf(heap) && heap.t.lo == m.start + 8 && heap.t.hi <= m.start + MAX_HEAP
      requires 0 <= heap.stale <= m.start + MAX_HEAP - 8
      requires x == 0 || Free(heap.t, x) || x == heap.stale
      ensures 0 <= x < WORD_LIMIT && (x != 0 ==> m.Addr(x) && m.Addr(x + 4))
    {
      if Free(heap.t, x) { BlockWords(m, heap.t, x); }
      else if x != 0 { AlignedWords(x); }
    }

    method AddToFreeList(p: Word)
      requires Mapped(0) && H.Wf(heap) && Free(heap.t, p) && p !in heap.list
      modifies this`freeList, this`heap, m`words, m.bytes
      ensures Mapped(0) && H.Wf(heap)
      ensures heap == H.Push(old(heap), p)
      ensures Kept(old(m.words), m.words, heap.t)
    {
      LinkAddresses(p);
      HeadIs(m.words, freeList, heap);
      LinkAddresses(freeList);
      AddRep(m.words, freeList, heap, p);
      SetNextFree(p, freeList);
      SetPrevFree(freeList, p);
      SetPrevFree(p, 0);
      freeList := p;
      heap := H.Push(heap, p);
    }

    method RemoveFromFreeList(p: Word)
      requires Mapped(0) && H.Wf(heap) && p in heap.list && (heap.stale != 0 ==> heap.list == [p])
      modifies this`freeList, this`heap, m`words, m.bytes
      ensures Mapped(0) && H.Wf(heap)
      ensures heap == H.Drop(old(heap), p)
      ensures Kept(old(m.words), m.words, heap.t)
    {
      hide View, RepBut, Tiling, Distinct, H.StaleOk, Kept;
      forall a | a in heap.list ensures a < WORD_LIMIT { LinkAddresses(a); }
      RemoveRep(m.words, freeList, heap, p);
      FreeIsAddress(heap, p);
      LinkAddresses(p);
      var prev := m.GetVal(p + 4);
      var next := m.GetVal(p);
      LinkAddresses(prev);
      LinkAddresses(next);
      if prev != 0 {
        SetNextFree(prev, next);
        SetPrevFree(next, prev);
      } else {
        SetPrevFree(next, 0);
        freeList := next;
      }
      heap := H.Drop(heap, p);
    }

    // ---------- reading the tiling from its tags ----------

    lemma EpilogueWord()
      requires Mapped(0) && Tiling(heap.t)
      ensures m.Addr(heap.t.hi - 4) && 0 < heap.t.hi <= WORD_LIMIT
    {
      Bounds(heap.t);
      AlignedWords(heap.t.hi);
    }

    lemma BlockTags(x: int)
      requires Mapped(0) && Tiling(heap.t) && x in heap.t.blocks
      ensures Taggable(heap.t.blocks[x]) && 0 < x < WORD_LIMIT
      ensures m.Addr(x - 4) && m.Addr(x + heap.t.blocks[x].size - 8)
      ensures At(m.words, x - 4) == Tag(heap.t.blocks[x])
      ensures At(m.words, x + heap.t.blocks[x].size - 8) == Tag(heap.t.blocks[x])
    {
      NoBlockAtZero(heap.t);
      BlockWords(m, heap.t, x);
      assert HeadTag(m.words, heap.t, x) && FootTag(m.words, heap.t, x);
    }

    /** `get_size(get_header_ptr(x))` of a block. */
    method BlockSize(x: int) returns (size: Word)
      requires Mapped(0) && Tiling(heap.t) && x in heap.t.blocks
      ensures size == heap.t.blocks[x].size
    {
      BlockTags(x);
      size := SizeOf(x, heap.t.blocks[x]);
    }

    /** `get_next_block_ptr`. */
    method NextBlock(x: int) returns (r: int)
      requires Mapped(0) && Tiling(heap.t) && x in heap.t.blocks
      ensures r == Next(heap.t, x)
    {
      var size := BlockSize(x);
      r := x + size;
    }

    /** `get_prev_block_ptr`, through the footer just below. */
    method PrevBlock(x: int) returns (r: int)
      requires Mapped(0) && Tiling(heap.t) && x in heap.t.blocks && x > heap.t.lo
      ensures r == Prev(heap.t, x)
    {
      ghost var p := Prev(heap.t, x);
      BlockTags(p);
      TagFields(heap.t.blocks[p]);
      var v := m.GetVal(x - 8);
      r := x - GetSize(v);
    }

    /** `is_free(get_header_ptr(x))` of a block or of the epilogue. */
    method HeaderFree(x: int) returns (free: bool)
      requires Mapped(0) && Tiling(heap.t) && (x in heap.t.blocks || x == heap.t.hi)
      ensures free == Free(heap.t, x)
    {
      ghost var b := Block(0, true);
      if x in heap.t.blocks {
        BlockTags(x);
        b := heap.t.blocks[x];
      } else {
        EpilogueWord();
        assert 0 == Eight(0);
      }
      free := IsFree(x, b);
    }

    /** `is_free(get_footer_ptr(x))` of a block. */
    method FooterFree(x: int) returns (free: bool)
      requires Mapped(0) && Tiling(heap.t) && x in heap.t.blocks
      ensures free == Free(heap.t, x)
    {
      BlockTags(x);
      TagFields(heap.t.blocks[x]);
      var size := BlockSize(x);
      var v := m.GetVal(x + size - 8);
      free := IsAllocated(v) == 0;
    }

    // ---------- coalesce ----------

    /** `remove_from_free_list` where the block is free. */
    method RemoveIf(free: bool, p: int)
      requires Mapped(0) && H.Wf(heap) && (free ==> p in heap.list) && (free && heap.stale != 0 ==> heap.list == [p])
      modifies this`freeList, this`heap, m`words, m.bytes
      ensures Mapped(0) && H.Wf(heap)
      ensures heap == old(heap).(list := Without(old(heap.list), if free then {p} else {}))
      ensures Kept(old(m.words), m.words, heap.t)
    {
      WithoutNone(heap.list, {});
      if free {
        LinkAddresses(p);
        RemoveFromFreeList(p);
      }
    }

    /** The first half of `coalesce`: the run around `x` leaves the list. */
    method UnlinkRun(x: Word, prev: int, next: int, prevFree: bool, nextFree: bool)
      requires Mapped(0) && H.CanCoalesce(heap, x) && (heap.stale != 0 ==> heap.list == [x])
      requires prev == Prev(heap.t, x) && next == Next(heap.t, x)
      requires prevFree == Free(heap.t, prev) && nextFree == Free(heap.t, next)
      modifies this`freeList, this`heap, m`words, m.bytes
      ensures Mapped(0) && H.Wf(heap)
      ensures var gone := KeysIn(old(heap.t), RunStart(old(heap.t), x), RunEnd(old(heap.t), x));
        heap == old(heap).(list := Without(old(heap.list), gone))
      ensures Kept(old(m.words), m.words, heap.t)
    {
      hide RepBut, View, Tiling, NoAdjacentFree, Kept, RunStart, RunEnd, KeysIn;
      H.RunOff(heap, x);
      ghost var w0 := m.words;
      RemoveIf(nextFree, next);
      ghost var w1 := m.words;
      RemoveIf(prevFree, prev);
      KeptThen(w0, w1, m.words, heap.t);
      ghost var w2 := m.words;
      var free := HeaderFree(x);
      RemoveIf(free, x);
      KeptThen(w0, w2, m.words, heap.t);
    }

    /** Memory holds the tags of a free block of `size` bytes at `x`. */
    ghost predicate FreeTags(x: int, size: int)
      reads m
    {
      && m.Addr(x - 4) && m.Addr(x + size - 8) && 0 < x < WORD_LIMIT && x - 4 in m.words && x + size - 8 in m.words
      && MIN_BLOCK_SIZE <= size < WORD_LIMIT - 1 && Aligned(size)
      && At(m.words, x - 4) == At(m.words, x + size - 8) == size
    }

    lemma FreeWords(x: int)
      requires Mapped(0) && H.Wf(heap) && Free(heap.t, x)
      ensures FreeTags(x, heap.t.blocks[x].size)
    {
      BlockTags(x);
      m.InView(x - 4);
      m.InView(x + heap.t.blocks[x].size - 8);
      assert Placed(heap.t, x);
    }

    /** `coalesce` when only the next block is free. */
    method TagWithNext(x: Word, next: Word, ghost xSize: int, ghost nextSize: int)
      requires m.Valid() && FreeTags(x, xSize) && FreeTags(next, nextSize) && next == x + xSize
      requires xSize + nextSize < WORD_LIMIT - 1
      modifies m`words, m.bytes
      ensures m.Valid() && m.words == TwoWrites(old(m.words), x - 4, next + nextSize - 8, xSize + nextSize)
    {
      var size := SizeOf(x, Block(xSize, false));
      var add := SizeOf(next, Block(nextSize, false));
      AlignedSum(size, add);
      size := size + add;
      m.SetVal(x - 4, MakeHeader(size, 0));
      var whole := SizeOf(x, Block(size, false));
      m.SetVal(x + whole - 8, MakeHeader(size, 0));
    }

    /** `coalesce` when only the previous block is free. */
    method TagWithPrev(x: Word, prev: Word, ghost xSize: int, ghost prevSize: int)
      requires m.Valid() && FreeTags(x, xSize) && FreeTags(prev, prevSize) && x == prev + prevSize
      requires xSize + prevSize < WORD_LIMIT - 1
      modifies m`words, m.bytes
      ensures m.Valid() && m.words == TwoWrites(old(m.words), x + xSize - 8, prev - 4, xSize + prevSize)
    {
      var own := SizeOf(x, Block(xSize, false));
      var add := SizeOf(prev, Block(prevSize, false));
      AlignedSum(own, add);
      var size := own + add;
      m.SetVal(x + own - 8, MakeHeader(size, 0));
      m.SetVal(prev - 4, MakeHeader(size, 0));
    }

    /** `coalesce` when both neighbours are free. */
    method TagWithBoth(x: Word, prev: Word, next: Word, ghost xSize: int, ghost prevSize: int, ghost nextSize: int)
      requires m.Valid() && FreeTags(x, xSize) && FreeTags(prev, prevSize) && FreeTags(next, nextSize)
      requires x == prev + prevSize && next == x + xSize && xSize + prevSize + nextSize < WORD_LIMIT - 1
      modifies m`words, m.bytes
      ensures m.Valid()
      ensures m.words == TwoWrites(old(m.words), prev - 4, next + nextSize - 8, xSize + prevSize + nextSize)
    {
      hide View, GetSize;
      var size := SizeOf(x, Block(xSize, false));
      var below := SizeOf(prev, Block(prevSize, false));
      var above := FooterSize(next, Block(nextSize, false));
      AlignedSum(below, above);
      AlignedSum(size, below + above);
      size := size + (below + above);
      m.SetVal(prev - 4, MakeHeader(size, 0));
      var offset := SizeOf(next, Block(nextSize, false));
      m.SetVal(next + offset - 8, MakeHeader(size, 0));
    }

    /** The second half of `coalesce`: the run gets the tags of one block. */
    method TagRun(x: Word, prev: int, next: int, prevFree: bool, nextFree: bool) returns (bp: Word)
      requires Mapped(0) && H.Wf(heap) && Free(heap.t, x) && NoAdjacentFree(heap.t, x)
      requires prev == Prev(heap.t, x) && next == Next(heap.t, x)
      requires prevFree == Free(heap.t, prev) && nextFree == Free(heap.t, next)
      modifies m`words, m.bytes
      ensures m.Valid() && bp == RunStart(heap.t, x)
      ensures RunTagged(old(m.words), m.words, RunStart(heap.t, x), RunEnd(heap.t, x))
    {
      hide View, RepBut, Tiling, NoAdjacentFree, RunTagged, TwoWrites, At;
      RunSizes(x);
      RunTags(x);
      ghost var t, w, s, e := heap.t, m.words, RunStart(heap.t, x), RunEnd(heap.t, x);
      bp := x;
      if !prevFree && !nextFree {
        AlreadyTagged(w, s, e);
      } else if !prevFree && nextFree {
        TagWithNext(x, next, t.blocks[x].size, t.blocks[next].size);
        OuterTags(w, m.words, s, e);
      } else if prevFree && !nextFree {
        TagWithPrev(x, prev, t.blocks[x].size, t.blocks[prev].size);
        OuterTags(w, m.words, s, e);
        bp := prev;
      } else {
        TagWithBoth(x, prev, next, t.blocks[x].size, t.blocks[prev].size, t.blocks[next].size);
        OuterTags(w, m.words, s, e);
        bp := prev;
      }
    }

    lemma RunTags(x: int)
      requires Mapped(0) && H.Wf(heap) && Free(heap.t, x) && heap.t.lo < x
      ensures FreeTags(x, heap.t.blocks[x].size)
      ensures var p := Prev(heap.t, x); Free(heap.t, p) ==> FreeTags(p, heap.t.blocks[p].size)
      ensures var n := Next(heap.t, x); Free(heap.t, n) ==> FreeTags(n, heap.t.blocks[n].size)
    {
      FreeWords(x);
      if Free(heap.t, Prev(heap.t, x)) { FreeWords(Prev(heap.t, x)); }
      if Free(heap.t, Next(heap.t, x)) { FreeWords(Next(heap.t, x)); }
    }

    /** The run around `x`, already off the list, becomes one block. */
    method MergeRun(x: Word, prev: int, next: int, prevFree: bool, nextFree: bool) returns (bp: Word)
      requires Mapped(0) && H.Wf(heap) && Free(heap.t, x) && NoAdjacentFree(heap.t, x)
      requires prev == Prev(heap.t, x) && next == Next(heap.t, x)
      requires prevFree == Free(heap.t, prev) && nextFree == Free(heap.t, next)
      requires var s, e := RunStart(heap.t, x), RunEnd(heap.t, x);
        Mergeable(heap.t, s, e) && forall a :: a in heap.list ==> !(s <= a < e)
      modifies this`heap, m`words, m.bytes
      ensures Mapped(0) && heap == old(heap).(t := Coalesced(old(heap.t), x)) && bp == RunStart(old(heap.t), x)
      ensures Kept(old(m.words), m.words, heap.t)
    {
      hide View, Tiling, NoAdjacentFree;
      RunSizes(x);
      bp := TagRun(x, prev, next, prevFree, nextFree);
      MergeRep(old(m.words), m.words, freeList, heap, RunStart(heap.t, x), RunEnd(heap.t, x));
      heap := heap.(t := Coalesced(heap.t, x));
    }

    lemma RunSizes(x: int)
      requires Mapped(0) && H.Wf(heap) && Free(heap.t, x) && NoAdjacentFree(heap.t, x)
      ensures heap.t.lo < x
      ensures var t := heap.t; var p := Prev(t, x);
        Next(t, p) == x && p != t.hi && RunEnd(t, x) - RunStart(t, x) < WORD_LIMIT - 1
    {
      RunKeys(heap.t, x);
      Bounds(heap.t);
      assert RunEnd(heap.t, x) in heap.t.blocks ==> Placed(heap.t, RunEnd(heap.t, x));
    }

    method Coalesce(x: Word) returns (bp: Word)
      requires Mapped(0) && H.CanCoalesce(heap, x) && (heap.stale != 0 ==> heap.list == [x])
      modifies this`freeList, this`heap, m`words, m.bytes
      ensures Mapped(0) && heap == H.Coalesce(old(heap), x) && bp == RunStart(old(heap.t), x)
      ensures Kept(old(m.words), m.words, heap.t)
    {
      hide View, RepBut, Tiling, NoAdjacentFree, H.StaleOk, Distinct;
      ghost var t := heap.t;
      H.CoalesceSteps(heap, x);
      var prev := PrevBlock(x);
      var prevFree := FooterFree(prev);
      var next := NextBlock(x);
      var nextFree := HeaderFree(next);
      UnlinkRun(x, prev, next, prevFree, nextFree);
      ghost var w1 := m.words;
      bp := MergeRun(x, prev, next, prevFree, nextFree);
      CoalescedTiling(t, x);
      KeptFewer(old(m.words), w1, heap.t, t);
      KeptThen(old(m.words), w1, m.words, heap.t);
      ghost var w2 := m.words;
      AddToFreeList(bp);
      KeptThen(old(m.words), w2, m.words, heap.t);
    }

    // ---------- place ----------

    /** `set_val` of a block's header and then, through that header, of its footer. */
    method TagBlock(p: Word, size: Word, flag: Word)
      requires m.Valid() && m.Addr(p - 4) && m.Addr(p + size - 8) && flag <= 1
      requires Aligned(size) && MIN_BLOCK_SIZE <= size < WORD_LIMIT - 1
      modifies m`words, m.bytes
      ensures m.Valid() && m.words == TwoWrites(old(m.words), p - 4, p + size - 8, size + flag)
    {
      hide View;
      m.SetVal(p - 4, MakeHeader(size, flag));
      var own := SizeOf(p, Block(size, flag == 1));
      m.SetVal(p + own - 8, MakeHeader(size, flag));
    }

    /** The tags of `place` when it splits. */
    method TagSplit(p: Word, n: Word, ghost size: int, remaining: Word)
      requires m.Valid() && m.Addr(p - 4) && m.Addr(p + n - 8) && m.Addr(p + n - 4) && m.Addr(p + size - 8)
      requires Aligned(n) && n >= MIN_BLOCK_SIZE && Aligned(remaining) && remaining >= MIN_BLOCK_SIZE
      requires size == n + remaining < WORD_LIMIT - 1 && p + size <= WORD_LIMIT
      modifies m`words, m.bytes
      ensures m.Valid()
      ensures var m0 := p + n; var e := p + size;
        && (forall a :: a != p - 4 && a != m0 - 8 && a != m0 - 4 && a != e - 8 ==>
              At(m.words, a) == At(old(m.words), a))
        && At(m.words, p - 4) == At(m.words, m0 - 8) == n + 1 && At(m.words, m0 - 4) == At(m.words, e - 8) == e - m0
    {
      hide View;
      TagBlock(p, n, 1);
      var own := SizeOf(p, Block(n, true));
      TagBlock(p + own, remaining, 0);
    }

    /** `place` when the rest is large enough for a block. */
    method PlaceSplit(p: Word, n: Word, curSize: Word)
      requires Mapped(p) && H.CanPlace(heap, p, n)
      requires heap.t.blocks[p].size == curSize && curSize - n >= MIN_BLOCK_SIZE
      modifies this`freeList, this`heap, m`words, m.bytes
      ensures Mapped(0) && heap == H.Place(old(heap), p, n)
      ensures Kept(old(m.words), m.words, heap.t)
    {
      ghost var t, w := heap.t, m.words;
      BlockWords(m, t, p);
      SplitWords(p, n);
      TagSplit(p, n, curSize, curSize - n);
      SplitRep(w, m.words, freeList, heap, p, n);
      heap := heap.(t := Split(t, p, n));
      ghost var w1 := m.words;
      AddToFreeList(p + n);
      KeptThen(w, w1, m.words, heap.t);
    }

    /** `place` when the whole block is used. */
    method PlaceWhole(p: Word, ghost n: int, curSize: Word)
      requires Mapped(p) && H.CanPlace(heap, p, n)
      requires heap.t.blocks[p].size == curSize && curSize - n < MIN_BLOCK_SIZE
      modifies this`heap, m`words, m.bytes
      ensures Mapped(0) && heap == H.Place(old(heap), p, n)
      ensures Kept(old(m.words), m.words, heap.t)
    {
      ghost var t, w := heap.t, m.words;
      BlockWords(m, t, p);
      TagBlock(p, curSize, 1);
      RelabelRep(w, m.words, freeList, heap, p, true);
      heap := heap.(t := Relabel(t, p, true));
    }

    method Place(p: Word, n: Word)
      requires Mapped(p) && H.CanPlace(heap, p, n)
      modifies this`freeList, this`heap, m`words, m.bytes
      ensures Mapped(0) && heap == H.Place(old(heap), p, n)
      ensures Kept(old(m.words), m.words, heap.t)
    {
      BlockWords(m, heap.t, p);
      assert HeadTag(m.words, heap.t, p);
      var curSize := SizeOf(p, heap.t.blocks[p]);
      var remaining := curSize - n;
      if remaining >= MIN_BLOCK_SIZE {
        PlaceSplit(p, n, curSize);
      } else {
        PlaceWhole(p, n, curSize);
      }
    }

    lemma SplitWords(p: int, n: int)
      requires m.Valid() && heap.t.lo == m.start + 8 && heap.t.hi == m.brk
      requires H.CanPlace(heap, p, n) && heap.t.blocks[p].size - n >= MIN_BLOCK_SIZE
      ensures m.Addr(p + n - 8) && m.Addr(p + n - 4) && Aligned(heap.t.blocks[p].size - n)
      ensures p + heap.t.blocks[p].size <= WORD_LIMIT
      ensures H.Wf(heap.(t := Split(heap.t, p, n))) && p + n !in heap.list
    {
      var t := heap.t;
      BlockWords(m, t, p);
      SplitNew(t, p, n);
      AlignedWords(p + n);
      SplitTiling(t, p, n);
      assert Placed(t, p);
    }

    // ---------- extend_heap ----------

    method ExtendHeap(words: nat) returns (bp: Word)
      requires Mapped(0) && H.Inv(heap.(stale := 0)) && 4 <= words < 0x3FFF_FFFF
      requires H.StaleOk(H.Grown(heap, ExtendSize(words))) && (heap.stale != 0 ==> heap.list == [])
      requires ExtendSize(words) < INT_LIMIT ==> m.brk + ExtendSize(words) < WORD_LIMIT
      modifies this`freeList, this`heap, m`words, m`brk, m.bytes
      ensures Mapped(0)
      ensures var n := ExtendSize(words);
        if old(m.brk) + n <= m.start + MAX_HEAP
        then Aligned(n) && H.CanCoalesce(H.Grown(old(heap), n), old(heap.t.hi))
             && heap == H.Coalesce(H.Grown(old(heap), n), old(heap.t.hi)) && bp == heap.list[0]
        else heap == old(heap) && bp == 0
      ensures Kept(old(m.words), m.words, old(heap.t))
    {
      hide View, RepBut, Tiling, NoAdjacentFree, Distinct;
      ghost var h, t, w := heap, heap.t, m.words;
      var size := if words % 2 != 0 then (words + 1) * 4 else words * 4;
      ExtendSizeAligned(words);
      H.GrownInv(h, size);
      Bounds(t);
      var brk := m.Sbrk(ToInt(size));
      if brk == -1 { return 0; }
      bp := brk;
      TagNew(bp, size);
      GrowRep(w, m.words, freeList, h, size);
      heap := h.(t := Grow(t, size));
      KeptGrown(w, m.words, t, size);
      ghost var w1 := m.words;
      AddToFreeList(bp);
      KeptThen(w, w1, m.words, heap.t);
      bp := CoalesceNew(h, bp, size, w);
    }

    /** `coalesce` of the new block. */
    method CoalesceNew(ghost h: H.Heap, x: Word, ghost n: int, ghost w: Words) returns (bp: Word)
      requires Mapped(0) && H.CanCoalesce(heap, x) && heap == H.Grown(h, n) && x == h.t.hi
      requires heap.stale != 0 ==> heap.list == [x]
      requires Tiling(h.t) && n >= MIN_BLOCK_SIZE && Aligned(n) && Kept(w, m.words, heap.t)
      modifies this`freeList, this`heap, m`words, m.bytes
      ensures Mapped(0) && heap == H.Coalesce(H.Grown(h, n), x) && bp == heap.list[0]
      ensures Kept(w, m.words, h.t)
    {
      hide RepBut, View, Tiling, NoAdjacentFree, Coalesced, RunStart, Kept, H.StaleOk;
      ghost var w1, g := m.words, heap.t;
      GrowTiling(h.t, n);
      CoalescedTiling(g, x);
      bp := Coalesce(x);
      KeptFewer(w, w1, heap.t, g);
      KeptThen(w, w1, m.words, heap.t);
      KeptFewer(w, m.words, h.t, heap.t);
    }

    /** The tags of `extend_heap`. */
    method TagNew(bp: Word, size: Word)
      requires m.Valid() && m.start + 8 <= bp && bp + size <= m.start + MAX_HEAP && Aligned(bp) && Aligned(size)
      requires size >= MIN_BLOCK_SIZE
      modifies m`words, m.bytes
      ensures m.Valid() && m.words == GrownWords(old(m.words), bp, size)
      ensures GrowWords(old(m.words), m.words, bp, size)
    {
      hide View, GetSize;
      AlignedSum(bp, size);
      AlignedWords(bp);
      AlignedWords(bp + size);
      assert 0 == Eight(0);
      m.SetVal(bp - 4, MakeHeader(size, 0));
      var own := SizeOf(bp, Block(size, false));
      m.SetVal(bp + own - 8, MakeHeader(size, 0));
      own := SizeOf(bp, Block(size, false));
      m.SetVal(bp + own - 4, MakeHeader(0, 1));
    }

    // ---------- find_fit ----------

    /** The first list entry of at least `n` bytes, or null. */
    method FindFit(n: Word) returns (p: Word)
      requires Valid()
      ensures p == match H.Fit(heap, n) case Some(x) => x case None => 0
    {
      hide View, RepBut, H.FirstFit, Tiling;
      ghost var i := 0;
      p := freeList;
      HeadEntry();
      while p != 0
        invariant 0 <= i <= |heap.list|
        invariant p == if i < |heap.list| then heap.list[i] else 0
        invariant p == 0 ==> i == |heap.list|
        invariant forall a :: a in heap.list[i..] ==> a in heap.t.blocks
        invariant H.Fit(heap, n) == H.FirstFit(heap.t, heap.list[i..], n)
        decreases |heap.list| - i
      {
        CheckEntry(i);
        FitFrom(i, n);
        var size := BlockSize(p);
        if size >= n { return; }
        p := m.GetVal(p);
        i := i + 1;
      }
      assert heap.list[i..] == [];
      FitNone(n);
    }

    lemma HeadEntry()
      requires Valid()
      ensures freeList == if heap.list == [] then 0 else heap.list[0]
      ensures freeList == 0 <==> heap.list == []
      ensures heap.list[0..] == heap.list && forall a :: a in heap.list ==> a in heap.t.blocks
    {
      HeadIs(m.words, freeList, heap);
    }

    lemma FitNone(n: int)
      requires Valid()
      ensures H.FirstFit(heap.t, [], n) == None
    {
    }

    /** First fit looks at the entries in turn. */
    lemma FitFrom(i: nat, n: int)
      requires Valid() && i < |heap.list| && heap.list[i] in heap.t.blocks
      requires forall a :: a in heap.list[i..] ==> a in heap.t.blocks
      ensures forall a :: a in heap.list[i+1..] ==> a in heap.t.blocks
      ensures H.FirstFit(heap.t, heap.list[i..], n) ==
              if heap.t.blocks[heap.list[i]].size >= n then Some(heap.list[i])
              else H.FirstFit(heap.t, heap.list[i+1..], n)
    {
      hide View, RepBut, H.Inv;
      var s := heap.list[i..];
      assert s[0] == heap.list[i] && s[1..] == heap.list[i+1..];
      forall a | a in s[1..] ensures a in heap.t.blocks { assert a in s; }
    }

    // ---------- mm_malloc ----------

    /** A block of `n` bytes fits, or the arena has room for one. */
    ghost predicate Room(n: int)
      requires H.Inv(heap) && H.IsBlockSize(n)
      reads this, m
    {
      H.HasRoom(heap, n, m.start + MAX_HEAP)
    }

    /** The first half of `mm_malloc`: a large enough free block, from a longer heap if
        need be. */
    method Reserve(n: Word) returns (p: Word)
      requires Valid() && H.IsBlockSize(n) && Room(n)
      modifies this`freeList, this`heap, m`words, m`brk, m.bytes
      ensures Valid() && (heap, p) == H.Reserve(old(heap), n)
      ensures Kept(old(m.words), m.words, old(heap.t))
    {
      ghost var h := heap;
      p := FindFit(n);
      FitPositive(n);
      if p == 0 {
        var extendSize := if n > H.CHUNK_SIZE then n else H.CHUNK_SIZE;
        ExtensionWords(n);
        H.GrownInv(h, extendSize);
        H.ExtendInv(h, extendSize);
        p := ExtendHeap(extendSize / 4);
      }
    }

    lemma FitPositive(n: int)
      requires Valid()
      ensures H.Fit(heap, n).Some? ==> H.Fit(heap, n).value > 0
    {
      if H.Fit(heap, n).Some? { FreeIsAddress(heap, H.Fit(heap, n).value); }
    }

    method MallocBlock(n: Word) returns (p: Word)
      requires Valid() && H.IsBlockSize(n) && Room(n)
      modifies this`freeList, this`heap, m`words, m`brk, m.bytes
      ensures Valid() && (heap, p) == H.Malloc(old(heap), n)
      ensures Kept(old(m.words), m.words, old(heap.t))
    {
      hide View, RepBut, Tiling, Kept, NoAdjacentFree;
      ghost var t, w := heap.t, m.words;
      H.ReserveInv(heap, n);
      H.MallocInv(heap, n);
      p := Reserve(n);
      ghost var w1, g := m.words, heap.t;
      RemoveFromFreeList(p);
      KeptFewer(w1, m.words, t, g);
      KeptThen(w, w1, m.words, t);
      ghost var w2 := m.words;
      RepForgets(m.words, freeList, heap, p);
      Place(p, n);
      KeptFewer(w2, m.words, t, heap.t);
      KeptThen(w, w2, m.words, t);
    }

    method MmMalloc(size: Word) returns (p: Word)
      requires Valid() && (size != 0 ==> H.Request(size) && Room(H.Need(size)))
      modifies this`freeList, this`heap, m`words, m`brk, m.bytes
      ensures Valid()
      ensures if size == 0 then p == 0 && heap == old(heap) else (heap, p) == H.Malloc(old(heap), H.Need(size))
      ensures PayloadsKept(old(m.bytes[..]), m.bytes[..], m.start, old(heap.t), {})
    {
      if size == 0 { return 0; }
      var blockSize := CalcBlockSize(size);
      p := MallocBlock(blockSize);
      KeptBytes(old(m.bytes[..]), old(m.words), m.bytes[..], m.words, m.start, old(heap.t), {});
    }

    // ---------- mm_free ----------

    /** The tags of `mm_free`. */
    method MarkFree(p: Word)
      requires Valid() && Live(heap.t, p)
      modifies this`heap, m`words, m.bytes
      ensures Mapped(0) && heap == old(heap).(t := Relabel(old(heap.t), p, false))
      ensures Kept(old(m.words), m.words, heap.t)
    {
      ghost var t := heap.t;
      BlockWords(m, t, p);
      var size := BlockSize(p);
      TagBlock(p, size, 0);
      RelabelRep(old(m.words), m.words, freeList, heap, p, false);
      heap := heap.(t := Relabel(t, p, false));
    }

    method FreeBlock(p: Word)
      requires Valid() && Live(heap.t, p)
      modifies this`freeList, this`heap, m`words, m.bytes
      ensures Valid() && heap == H.Released(old(heap), p)
      ensures Kept(old(m.words), m.words, heap.t)
    {
      ghost var w, u := m.words, Relabel(heap.t, p, false);
      H.ReleasedReady(heap, p);
      H.ReleasedInv(heap, p);
      MarkFree(p);
      ghost var w1 := m.words;
      AddToFreeList(p);
      KeptThen(w, w1, m.words, u);
      ghost var w2 := m.words;
      var bp := Coalesce(p);
      CoalescedTiling(u, p);
      KeptFewer(w, w2, heap.t, u);
      KeptThen(w, w2, m.words, heap.t);
    }

    method MmFree(p: Word)
      requires Valid() && Live(heap.t, p)
      modifies this`freeList, this`heap, m`words, m.bytes
      ensures Valid() && heap == H.Released(old(heap), p)
      ensures PayloadsKept(old(m.bytes[..]), m.bytes[..], m.start, old(heap.t), {p})
    {
      ghost var t := heap.t;
      H.ReleasedInv(heap, p);
      FreeBlock(p);
      KeptFewerBut(old(m.words), m.words, t, heap.t, p);
      KeptBytes(old(m.bytes[..]), old(m.words), m.bytes[..], m.words, m.start, t, {p});
    }

    // ---------- mm_realloc ----------

    /** The block above leaves the list and `p` takes it in: its header only. */
    method Join(p: Word, next: Word)
      requires Valid() && Live(heap.t, p) && next == Next(heap.t, p) && Free(heap.t, next)
      modifies this`freeList, this`heap, m`words, m.bytes
      ensures Mapped(p) && heap == H.Joined(old(heap), p)
      ensures Kept(old(m.words), m.words, old(heap.t))
    {
      hide View, Tiling, Distinct, NoAdjacentFree, Kept;
      ghost var h, t := heap, heap.t;
      var curSize := BlockSize(p);
      var nextSize := BlockSize(next);
      RemoveFromFreeList(next);
      ghost var w1 := m.words;
      JoinWords(p, next);
      m.SetVal(p - 4, MakeHeader(curSize + nextSize, 1));
      JoinRep(w1, m.words, freeList, heap, p);
      heap := H.Joined(h, p);
      KeptThen(old(m.words), w1, m.words, t);
    }

    /** `mm_realloc` into the free block above. */
    method ReallocGrow(p: Word, n: Word, next: Word, ghost size: nat)
      requires Valid() && Live(heap.t, p) && H.IsBlockSize(n) && n > heap.t.blocks[p].size
      requires next == Next(heap.t, p) && H.CanGrow(heap, p, n)
      modifies this`freeList, this`heap, m`words, m.bytes
      ensures Valid() && (heap, p as int) == H.Realloc(old(heap), p, n)
      ensures PayloadsKept(old(m.bytes[..]), m.bytes[..], m.start, old(heap.t), {p})
      ensures Copied(old(m.bytes[..]), m.bytes[..], m.start, p, p, Min(old(heap.t.blocks[p].size) - 8, size))
    {
      ghost var t, w := heap.t, m.words;
      H.JoinedReady(heap, p, n);
      H.ReallocInv(heap, p, n);
      Join(p, next);
      ghost var w2 := m.words;
      Place(p, n);
      KeptFewer(w2, m.words, t, heap.t);
      KeptThen(w, w2, m.words, t);
      GrowCopied(old(m.bytes[..]), w, t, p, t.blocks[p].size - 8, size);
    }

    /** A new block with a copy of the old one. */
    method MallocCopy(p: Word, size: Word, n: Word, curSize: Word) returns (q: Word)
      requires Valid() && Live(heap.t, p) && curSize == heap.t.blocks[p].size
      requires H.Request(size) && n == H.Need(size) && Room(n)
      modifies this`freeList, this`heap, m`words, m`brk, m.bytes
      ensures Valid() && (heap, q) == H.Malloc(old(heap), n)
      ensures Kept(old(m.words), m.words, old(heap.t))
      ensures Copied(old(m.bytes[..]), m.bytes[..], m.start, p, q, Min(curSize - 8, size))
    {
      hide View, RepBut, Tiling, Kept, Copied;
      ghost var t, w, m0 := heap.t, m.words, m.bytes[..];
      BlockPlaced(t, p);
      H.MallocInv(heap, n);
      q := MallocBlock(n);
      ghost var w1, m1 := m.words, m.bytes[..];
      var k := Min(curSize, size);
      CopyRanges(p, q, k);
      CopyPayload(p, q, k);
      CopyKept(w, w1, m.words, t, heap.t, q);
      CopyCopied(m0, w, m1, w1, m.bytes[..], m.start, t, p, q, k, Min(curSize - 8, size));
    }

    /** `mm_realloc` into a new block: allocate, copy, free. */
    method ReallocMove(p: Word, size: Word, n: Word, curSize: Word) returns (q: Word)
      requires Valid() && Live(heap.t, p) && H.Request(size) && n == H.Need(size) && n > heap.t.blocks[p].size
      requires !H.CanGrow(heap, p, n) && Room(n) && curSize == heap.t.blocks[p].size
      modifies this`freeList, this`heap, m`words, m`brk, m.bytes
      ensures Valid() && (heap, q) == H.Realloc(old(heap), p, n)
      ensures PayloadsKept(old(m.bytes[..]), m.bytes[..], m.start, old(heap.t), {p})
      ensures Copied(old(m.bytes[..]), m.bytes[..], m.start, p, q, Min(curSize - 8, size))
    {
      ghost var t, w, m0, k := heap.t, m.words, m.bytes[..], Min(curSize - 8, size);
      H.MallocInv(heap, n);
      H.ReallocInv(heap, p, n);
      q := MallocCopy(p, size, n, curSize);
      ghost var w2, m2 := m.words, m.bytes[..];
      FreeBlock(p);
      MoveKept(w, w2, m.words, t, heap.t, p, q);
      MoveBytes(m0, w, t, p);
      MoveCopied(m0, m2, w2, p, q, k);
    }

    lemma MoveCopied(m0: seq<Byte>, m2: seq<Byte>, w2: Words, p: int, q: int, k: nat)
      requires Valid() && |m0| == |m2| == m.bytes.Length && View(m2, m.start, w2)
      requires Live(heap.t, q) && Kept(w2, m.words, heap.t) && k <= heap.t.blocks[q].size - 8
      requires Copied(m0, m2, m.start, p, q, k)
      ensures Copied(m0, m.bytes[..], m.start, p, q, k)
    {
      assert KeptBlock(w2, m.words, heap.t, q);
      BlockBytesKept(m2, w2, m.bytes[..], m.words, m.start, heap.t, q);
      PayloadCopied(m2, m.bytes[..], m.start, heap.t, q, k);
      CopiedThen(m0, m2, m.bytes[..], m.start, p, q, q, k);
    }

    /** `memcpy` from one live block to another; the source may run over its tags. */
    method CopyPayload(p: Word, q: Word, k: nat)
      requires Valid() && Live(heap.t, p) && Live(heap.t, q) && p != q
      requires k <= heap.t.blocks[p].size && k <= heap.t.blocks[q].size - 8
      modifies m`words, m.bytes
      ensures Valid()
      ensures forall b {:trigger KeptBlock(old(m.words), m.words, heap.t, b)} ::
                Live(heap.t, b) && b != q ==> KeptBlock(old(m.words), m.words, heap.t, b)
      ensures Copied(old(m.bytes[..]), m.bytes[..], m.start, p, q, k)
    {
      CopyRanges(p, q, k);
      m.Memcpy(q, p, k);
      PayloadRep(old(m.words), m.words, freeList, heap, q, k);
    }

    lemma CopyRanges(p: int, q: int, k: nat)
      requires Valid() && Live(heap.t, p) && Live(heap.t, q) && p != q
      requires k <= heap.t.blocks[p].size && k <= heap.t.blocks[q].size - 8
      ensures m.start <= q && q + k <= m.start + MAX_HEAP && m.start <= p && p + k <= m.start + MAX_HEAP
      ensures q + k <= p || p + k <= q
    {
      assert Placed(heap.t, p) && Placed(heap.t, q);
    }

    lemma JoinWords(p: int, next: int)
      requires m.Valid() && heap.t.lo == m.start + 8 && heap.t.hi == m.brk && H.Wf(heap)
      requires Live(heap.t, p) && next == Next(heap.t, p) && Free(heap.t, next)
      ensures m.Addr(p - 4) && Aligned(heap.t.blocks[p].size + heap.t.blocks[next].size)
      ensures 0 < heap.t.blocks[p].size + heap.t.blocks[next].size < WORD_LIMIT - 1
    {
      BlockWords(m, heap.t, p);
      assert Placed(heap.t, p) && Placed(heap.t, next);
      AlignedSum(heap.t.blocks[p].size, heap.t.blocks[next].size);
    }

    /** `mm_realloc` needs a new block. */
    ghost predicate MustMove(p: int, n: int)
      requires Live(heap.t, p)
      reads this
    {
      n > heap.t.blocks[p].size && !H.CanGrow(heap, p, n)
    }

    method MmRealloc(p: Word, size: Word) returns (q: Word)
      requires Valid() && (p == 0 || Live(heap.t, p)) && !(p == 0 && size == 0)
      requires size != 0 ==> H.Request(size)
      requires size != 0 && (p == 0 || MustMove(p, H.Need(size))) ==> Room(H.Need(size))
      modifies this`freeList, this`heap, m`words, m`brk, m.bytes
      ensures Valid()
      ensures size == 0 ==> q == 0 && heap == H.Released(old(heap), p)
      ensures size != 0 && p == 0 ==> (heap, q) == H.Malloc(old(heap), H.Need(size))
      ensures size != 0 && p != 0 ==> (heap, q) == H.Realloc(old(heap), p, H.Need(size))
      ensures PayloadsKept(old(m.bytes[..]), m.bytes[..], m.start, old(heap.t), {p})
      ensures size != 0 && p != 0 ==>
                Copied(old(m.bytes[..]), m.bytes[..], m.start, p, q, Min(old(heap.t.blocks[p].size) - 8, size))
      ensures size != 0 && p != 0 ==>
                var k := Min(old(heap.t.blocks[p].size) - 8, size);
                && 0 < k && 0 <= p - m.start && p - m.start + k <= m.bytes.Length
                && 0 <= q - m.start && q - m.start + k <= m.bytes.Length
                && m.bytes[..][q - m.start..q - m.start + k] == old(m.bytes[..])[p - m.start..p - m.start + k]
    {
      hide View, RepBut, Tiling, Copied, H.Released, H.Malloc, H.Realloc;
      if size == 0 {
        MmFree(p);
        return 0;
      }
      if p == 0 {
        NoBlockAtZero(heap.t);
        q := MmMalloc(size);
        return;
      }
      ghost var m0, k := m.bytes[..], Min(heap.t.blocks[p].size - 8, size);
      BlockPlaced(heap.t, p);
      q := ReallocLive(p, size);
      CopiedMeans(m0, m.bytes[..], m.start, p, q, k);
    }

    /** `mm_realloc` of a live block to a positive size. */
    method ReallocLive(p: Word, size: Word) returns (q: Word)
      requires Valid() && Live(heap.t, p) && H.Request(size)
      requires MustMove(p, H.Need(size)) ==> Room(H.Need(size))
      modifies this`freeList, this`heap, m`words, m`brk, m.bytes
      ensures Valid() && (heap, q) == H.Realloc(old(heap), p, H.Need(size))
      ensures PayloadsKept(old(m.bytes[..]), m.bytes[..], m.start, old(heap.t), {p})
      ensures Copied(old(m.bytes[..]), m.bytes[..], m.start, p, q, Min(old(heap.t.blocks[p].size) - 8, size))
    {
      ghost var m0 := m.bytes[..];
      var curSize := BlockSize(p);
      var need := CalcBlockSize(size);
      assert m.bytes[..] == m0;
      if need <= curSize {
        q := p;
        assert Placed(heap.t, p);
        CopiedSame(m0, m.start, p, Min(curSize - 8, size));
      } else {
        q := ReallocLarger(p, size, need, curSize);
      }
    }

    /** `mm_realloc` of a live block that is too small. */
    method ReallocLarger(p: Word, size: Word, need: Word, curSize: Word) returns (q: Word)
      requires Valid() && Live(heap.t, p) && H.Request(size) && need == H.Need(size) > curSize == heap.t.blocks[p].size
      requires MustMove(p, need) ==> Room(need)
      modifies this`freeList, this`heap, m`words, m`brk, m.bytes
      ensures Valid() && (heap, q) == H.Realloc(old(heap), p, need)
      ensures PayloadsKept(old(m.bytes[..]), m.bytes[..], m.start, old(heap.t), {p})
      ensures Copied(old(m.bytes[..]), m.bytes[..], m.start, p, q, Min(curSize - 8, size))
    {
      var next, enough := TryAbove(p, curSize, need);
      assert m.bytes[..] == old(m.bytes[..]);
      if enough {
        ReallocGrow(p, need, next, size);
        return p;
      }
      q := ReallocMove(p, size, need, curSize);
    }

    /** Whether the block above `p` is free and makes enough room. */
    method TryAbove(p: Word, curSize: Word, need: Word) returns (next: Word, enough: bool)
      requires Valid() && Live(heap.t, p) && curSize == heap.t.blocks[p].size
      ensures enough == H.CanGrow(heap, p, need) && (enough ==> next == Next(heap.t, p))
    {
      var nextPtr := NextBlock(p);
      var free := HeaderFree(nextPtr);
      if free {
        LinkAddresses(nextPtr);
        next := nextPtr;
        var nextSize := BlockSize(next);
        enough := curSize + nextSize >= need;
      } else {
        next, enough := 0, false;
      }
    }

    lemma MoveBytes(m0: seq<Byte>, w: Words, t: Tiles, p: int)
      requires Valid() && |m0| == m.bytes.Length && View(m0, m.start, w) && Tiling(t)
      requires forall b {:trigger KeptBlock(w, m.words, t, b)} :: Live(t, b) && b != p ==> KeptBlock(w, m.words, t, b)
      ensures PayloadsKept(m0, m.bytes[..], m.start, t, {p})
    {
      KeptBytes(m0, w, m.bytes[..], m.words, m.start, t, {p});
    }

    lemma GrowCopied(m0: seq<Byte>, w: Words, t: Tiles, p: int, k: nat, size: nat)
      requires Valid() && |m0| == m.bytes.Length && View(m0, m.start, w) && Tiling(t) && Kept(w, m.words, t)
      requires Live(t, p) && t.blocks[p].size == k + 8 && t.lo == m.start + 8 && t.hi <= m.start + MAX_HEAP
      ensures PayloadsKept(m0, m.bytes[..], m.start, t, {p})
      ensures Copied(m0, m.bytes[..], m.start, p, p, Min(k, size))
    {
      KeptBytes(m0, w, m.bytes[..], m.words, m.start, t, {});
      assert Payload(m0, m.start, t, p) == Payload(m.bytes[..], m.start, t, p);
      PayloadCopied(m0, m.bytes[..], m.start, t, p, Min(k, size));
    }

    // ---------- mm_init ----------

    /** The four words `mm_init` writes before it extends the heap. */
    method WritePrologue(base: Word)
      requires m.Valid() && base == m.start
      modifies m`words, m.bytes
      ensures m.Valid() && m.words == PrologueWords(old(m.words), base)
      ensures At(m.words, base + 4) == At(m.words, base + 8) == 9 && At(m.words, base + 12) == 1
    {
      SmallMultiples();
      assert 0 == Eight(0);
      AlignedWords(base);
      AlignedSum(base, 8);
      AlignedWords(base + 8);
      m.SetVal(base, 0);
      m.SetVal(base + 4, MakeHeader(8, 1));
      m.SetVal(base + 8, MakeHeader(8, 1));
      m.SetVal(base + 12, MakeHeader(0, 1));
    }

    method MmInit() returns (r: int)
      requires m.Valid() && m.brk == m.start
      requires H.StaleHeadOk(m.start + 8, freeList) && freeList <= m.start + MAX_HEAP - 8
      modifies this, m`words, m`brk, m.bytes
      ensures r == 0 && Valid() && heap == H.Initial(m.start + 8) && heapPtr == m.start + 8
      ensures heap.list == [m.start + 16] && m.brk == m.start + 16 + 4096
      ensures heap.t.blocks == map[m.start + 8 := Block(8, true), m.start + 16 := Block(4096, false)]
    {
      hide RepBut, View, Tiling, NoAdjacentFree, Kept, H.Wf;
      var base := m.Sbrk(16);
      if base == -1 { return -1; }
      heapPtr := base;
      WritePrologue(heapPtr);
      heapPtr := heapPtr + 8;
      ghost var lo, stale := m.start + 8, freeList;
      heap := H.Bare(lo, stale);
      SmallMultiples();
      AlignedSum(m.start, 8);
      H.BareInv(lo, stale);
      BareRep(m.words, lo, stale);
      var first := ExtendHeap(H.CHUNK_SIZE / 4);
      if first == 0 { return -1; }
      H.InitialCoalesce(lo, stale);
      StartList(first);
      return 0;
    }

    /** The free list starts at the first block, whatever that linked to before. */
    method StartList(first: Word)
      requires Mapped(0) && H.Inv(H.Initial(m.start + 8)) && first == m.start + 16
      requires heap.t == H.Initial(m.start + 8).t && heap.list == [first]
      modifies this`freeList, this`heap, m`words, m.bytes
      ensures Valid() && heap == H.Initial(m.start + 8)
    {
      ghost var t := heap.t;
      BlockWords(m, t, first);
      LinkWrite(m.words, t, 0, first, 0);
      freeList := first;
      SetNextFree(freeList, 0);
      LinkWrite(m.words, t, 0, first, 0);
      SetPrevFree(freeList, 0);
      heap := H.Initial(m.start + 8);
    }

    // ---------- mm_check ----------

    ghost predicate InHeap(x: int)
      reads this, m
    {
      m.start <= x < m.brk
    }

    /** Entry `i` of a list can be read, and links to the next one; the last links nowhere or out
        of the heap. */
    ghost predicate ChainAt(s: seq<int>, i: nat)
      requires i < |s|
      reads this, m
    {
      && 0 < s[i] < WORD_LIMIT && m.Addr(s[i] - 4) && m.Addr(s[i]) && m.Addr(s[i] + 4)
      && var next := At(m.words, s[i]);
         if i + 1 < |s| then next == s[i+1] else next == 0 || !InHeap(next)
    }

    /** A finite free list, whatever its tags and previous links say. */
    ghost predicate Chain(s: seq<int>)
      reads this, m
    {
      && freeList == (if s == [] then 0 else s[0])
      && (forall i {:trigger ChainAt(s, i)} :: 0 <= i < |s| ==> ChainAt(s, i))
    }

    /** An entry marked free whose links stay in the heap. */
    ghost predicate EntryOk(x: int)
      reads this, m
    {
      var next, prev := At(m.words, x), At(m.words, x + 4);
      IsAllocated(At(m.words, x - 4)) == 0 && (next == 0 || InHeap(next)) && (prev == 0 || InHeap(prev))
    }

    ghost predicate PassesAt(s: seq<int>, i: nat)
      requires i < |s|
      reads this, m
    {
      EntryOk(s[i]) && (At(m.words, s[i] + 4) == 0 <==> i == 0)
    }

    /** The tests of `mm_check` on one entry, and its links. */
    method InspectEntry(p: Word) returns (ok: bool, np: Word, pp: Word)
      requires m.Valid() && m.Addr(p - 4) && m.Addr(p) && m.Addr(p + 4)
      ensures ok == EntryOk(p) && np == At(m.words, p) && pp == At(m.words, p + 4)
    {
      var header := m.GetVal(p - 4);
      np := m.GetVal(p);
      pp := m.GetVal(p + 4);
      if IsAllocated(header) != 0 { return false, np, pp; }
      var lo := m.HeapLo();
      var hi := m.HeapHi();
      ok := (np == 0 || (np >= lo && np <= hi)) && (pp == 0 || (pp >= lo && pp <= hi));
    }

    /** The loop of `mm_check`, and what it makes of its two counts. */
    method CheckList(ghost chain: seq<int>) returns (r: int)
      requires m.Valid() && Chain(chain) && (chain != [] ==> At(m.words, chain[0] + 4) == 0)
      ensures r == if forall i {:trigger PassesAt(chain, i)} :: 0 <= i < |chain| ==> PassesAt(chain, i) then 0 else -1
    {
      hide View, EntryOk;
      var nilPrev, nilNext := 0, 0;
      ghost var i, bad := 0, 0;
      var p := freeList;
      assert chain != [] ==> ChainAt(chain, 0);
      while p != 0
        invariant 0 <= i <= |chain|
        invariant p == if i < |chain| then chain[i] else 0
        invariant p == 0 ==> i == |chain|
        invariant forall j {:trigger PassesAt(chain, j)} :: 0 <= j < i && nilPrev <= 1 ==> PassesAt(chain, j)
        invariant nilPrev == 0 <==> i == 0
        invariant nilPrev > 1 ==> 0 <= bad < |chain| && !PassesAt(chain, bad)
        invariant nilNext == (if i > 0 && i == |chain| then 1 else 0)
        decreases |chain| - i
      {
        assert ChainAt(chain, i);
        var ok, np, pp := InspectEntry(p);
        if !ok { assert !PassesAt(chain, i); return -1; }
        EntryNext(chain, i);
        if np == 0 { nilNext := nilNext + 1; }
        if pp == 0 { nilPrev := nilPrev + 1; bad := i; }
        p := np;
        i := i + 1;
      }
      if nilPrev > 1 { return -1; }
      if nilNext > 1 { return -1; }
      return 0;
    }

    /** After an entry that passes comes the next one, or the end of the list. */
    lemma EntryNext(s: seq<int>, i: nat)
      requires Chain(s) && i < |s| && EntryOk(s[i])
      ensures At(m.words, s[i]) == if i + 1 < |s| then s[i+1] else 0
      ensures i + 1 < |s| ==> s[i+1] != 0
    {
      assert ChainAt(s, i);
      if i + 1 < |s| { assert ChainAt(s, i + 1); }
    }

    /** `mm_check` on a finite list: 0 if the first entry, and no other, is without a previous
        link, and every entry is marked free with links that stay in the heap; -1 otherwise.  Two
        entries of a list cannot both be without a next link. */
    method MmCheck(ghost chain: seq<int>) returns (r: int)
      requires m.Valid() && Chain(chain)
      ensures r == 0 || r == -1
      ensures r == 0 <==>
                forall i :: 0 <= i < |chain| ==>
                  var header, next, prev := At(m.words, chain[i] - 4), At(m.words, chain[i]), At(m.words, chain[i] + 4);
                  && IsAllocated(header) == 0 && (prev == 0 <==> i == 0)
                  && (next == 0 || m.start <= next < m.brk) && (prev == 0 || m.start <= prev < m.brk)
    {
      hide View, IsAllocated;
      assert chain != [] ==> ChainAt(chain, 0);
      if freeList != 0 {
        var prev := m.GetVal(freeList + 4);
        if prev != 0 {
          assert chain[0] == freeList;
          return -1;
        }
      }
      r := CheckList(chain);
      assert forall i {:trigger chain[i]} {:trigger PassesAt(chain, i)} :: 0 <= i < |chain| ==>
               var header, next, prev := At(m.words, chain[i] - 4), At(m.words, chain[i]), At(m.words, chain[i] + 4);
               PassesAt(chain, i) ==
               (IsAllocated(header) == 0 && (prev == 0 <==> i == 0)
                && (next == 0 || m.start <= next < m.brk) && (prev == 0 || m.start <= prev < m.brk));
    }

    /** It finds nothing to complain about in any state between calls. */
    method CheckBetweenCalls() returns (r: int)
      requires Valid()
      ensures r == 0
    {
      ListPasses();
      r := MmCheck(heap.list);
      forall i | 0 <= i < |heap.list|
        ensures var x := heap.list[i]; var header, next, prev := At(m.words, x - 4), At(m.words, x), At(m.words, x + 4);
          && IsAllocated(header) == 0 && (prev == 0 <==> i == 0)
          && (next == 0 || m.start <= next < m.brk) && (prev == 0 || m.start <= prev < m.brk)
      {
        assert PassesAt(heap.list, i);
      }
    }

    lemma EntryPasses(i: nat)
      requires Valid() && i < |heap.list|
      ensures ChainAt(heap.list, i) && PassesAt(heap.list, i)
    {
      CheckEntry(i);
      BlockTags(heap.list[i]);
      TagFields(heap.t.blocks[heap.list[i]]);
    }

    lemma ListPasses()
      requires Valid()
      ensures Chain(heap.list)
      ensures forall i {:trigger PassesAt(heap.list, i)} :: 0 <= i < |heap.list| ==> PassesAt(heap.list, i)
    {
      hide ChainAt, PassesAt;
      HeadIs(m.words, freeList, heap);
      forall i | 0 <= i < |heap.list| ensures ChainAt(heap.list, i) && PassesAt(heap.list, i) {
        EntryPasses(i);
      }
    }

    lemma CheckEntry(i: nat)
      requires Valid() && i < |heap.list|
      ensures var p := heap.list[i]; var np, pp := At(m.words, p), At(m.words, p + 4);
        && 0 < p < WORD_LIMIT && m.Addr(p) && m.Addr(p + 4) && Free(heap.t, p)
        && np == (if i + 1 < |heap.list| then heap.list[i+1] else 0) && pp == (if i > 0 then heap.list[i-1] else 0)
        && (np == 0 <==> i + 1 == |heap.list|) && (pp == 0 <==> i == 0)
        && (np != 0 ==> m.start <= np < m.brk) && (pp != 0 ==> m.start <= pp < m.brk)
    {
      assert Linked(m.words, heap.list, i, 0);
      forall a | a in heap.list ensures m.start <= a < m.brk && 0 < a < WORD_LIMIT && m.Addr(a) && m.Addr(a + 4) {
        BlockWords(m, heap.t, a);
        assert Placed(heap.t, a);
      }
      assert heap.list[i] in heap.list;
      if i > 0 { assert heap.list[i-1] in heap.list; }
      if i + 1 < |heap.list| { assert heap.list[i+1] in heap.list; }
    }
  }

  lemma BareRep(w: Words, lo: int, stale: int)
    requires At(w, lo - 4) == At(w, lo) == 9 && At(w, lo + 4) == 1
    ensures Rep(w, stale, H.Bare(lo, stale))
  {
    var t := H.Bare(lo, stale).t;
    assert forall a :: a in t.blocks ==> a == lo;
  }

  lemma KeptFewerBut(w: Words, w': Words, t: Tiles, u: Tiles, p: int)
    requires Kept(w, w', u) && H.SameLive(t, u, {p})
    ensures forall b {:trigger KeptBlock(w, w', t, b)} :: Live(t, b) && b != p ==> KeptBlock(w, w', t, b)
  {
    forall b | Live(t, b) && b != p ensures KeptBlock(w, w', t, b) {
      assert KeptBlock(w, w', u, b);
    }
  }

  /** Blocks other than `p` through the three steps of a move. */
  lemma MoveKept(w: Words, w2: Words, w3: Words, t: Tiles, u: Tiles, p: int, q: int)
    requires Kept(w, w2, t) && Kept(w2, w3, u) && !Live(t, q) && H.SameLive(t, u, {p, q})
    ensures forall b {:trigger KeptBlock(w, w3, t, b)} :: Live(t, b) && b != p ==> KeptBlock(w, w3, t, b)
  {
    forall b | Live(t, b) && b != p ensures KeptBlock(w, w3, t, b) {
      assert KeptBlock(w, w2, t, b) && KeptBlock(w2, w3, u, b);
    }
  }

  lemma CopyKept(w: Words, w1: Words, w2: Words, t: Tiles, g: Tiles, q: int)
    requires Kept(w, w1, t) && !Live(t, q) && H.SameLive(t, g, {q})
    requires forall b {:trigger KeptBlock(w1, w2, g, b)} :: Live(g, b) && b != q ==> KeptBlock(w1, w2, g, b)
    ensures Kept(w, w2, t)
  {
    forall b | Live(t, b) ensures KeptBlock(w, w2, t, b) {
      assert KeptBlock(w, w1, t, b) && KeptBlock(w1, w2, g, b);
    }
  }

  lemma CopyCopied(m0: seq<Byte>, w: Words, m1: seq<Byte>, w1: Words, m2: seq<Byte>, start: int, t: Tiles,
                   p: int, q: int, k: nat, k': nat)
    requires |m0| == |m1| == |m2| && View(m0, start, w) && View(m1, start, w1)
    requires Tiling(t) && Live(t, p) && Kept(w, w1, t) && k' <= t.blocks[p].size - 8 && k' <= k
    requires Copied(m1, m2, start, p, q, k) && start <= t.lo && t.hi <= start + |m0|
    requires start <= q && q + k <= start + |m0| && p + k <= start + |m0|
    ensures Copied(m0, m2, start, p, q, k')
  {
    assert KeptBlock(w, w1, t, p);
    BlockBytesKept(m0, w, m1, w1, start, t, p);
    PayloadCopied(m0, m1, start, t, p, k');
    CopiedLess(m1, m2, start, p, q, k, k');
    CopiedThen(m0, m1, m2, start, p, p, q, k');
  }

  /** What it means for bytes to be copied. */
  lemma CopiedMeans(m: seq<Byte>, m': seq<Byte>, start: int, p: int, q: int, k: int)
    requires k > 0 && Copied(m, m', start, p, q, k)
    ensures 0 <= p - start && p - start + k <= |m| && 0 <= q - start && q - start + k <= |m'|
    ensures m'[q - start..q - start + k] == m[p - start..p - start + k]
  {
    assert CopiedByte(m, m', start, p, q, 0) && CopiedByte(m, m', start, p, q, k - 1);
    var s, s' := m[p - start..p - start + k], m'[q - start..q - start + k];
    forall i | 0 <= i < k ensures s'[i] == s[i] {
      assert CopiedByte(m, m', start, p, q, i);
    }
  }

  lemma CopiedSame(m: seq<Byte>, start: int, p: int, k: int)
    requires start <= p && p + k <= start + |m|
    ensures Copied(m, m, start, p, p, k)
  {
  }

  lemma CopiedLess(m: seq<Byte>, m': seq<Byte>, start: int, p: int, q: int, k: int, k': int)
    requires Copied(m, m', start, p, q, k) && k' <= k
    ensures Copied(m, m', start, p, q, k')
  {
    forall i | 0 <= i < k' ensures CopiedByte(m, m', start, p, q, i) {
      assert CopiedByte(m, m', start, p, q, i);
    }
  }

  lemma CopiedThen(m0: seq<Byte>, m1: seq<Byte>, m2: seq<Byte>, start: int, p: int, r: int, q: int, k: int)
    requires Copied(m0, m1, start, p, r, k) && Copied(m1, m2, start, r, q, k)
    ensures Copied(m0, m2, start, p, q, k)
  {
    forall i | 0 <= i < k ensures CopiedByte(m0, m2, start, p, q, i) {
      assert CopiedByte(m0, m1, start, p, r, i) && CopiedByte(m1, m2, start, r, q, i);
    }
  }

  lemma PayloadCopied(m: seq<Byte>, m': seq<Byte>, start: int, t: Tiles, b: int, k: int)
    requires Tiling(t) && b in t.blocks && k <= t.blocks[b].size - 8 && |m| == |m'|
    requires start <= t.lo && t.hi <= start + |m| && Payload(m, start, t, b) == Payload(m', start, t, b)
    ensures Copied(m, m', start, b, b, k)
  {
    assert Placed(t, b);
    forall i | 0 <= i < k ensures CopiedByte(m, m', start, b, b, i) {
      assert Payload(m, start, t, b)[i] == m[b - start + i] && Payload(m', start, t, b)[i] == m'[b - start + i];
    }
  }

  ghost predicate CopiedByte(m: seq<Byte>, m': seq<Byte>, start: int, p: int, q: int, i: int) {
    && 0 <= p - start + i < |m| && 0 <= q - start + i < |m'|
    && m'[q - start + i] == m[p - start + i]
  }

  /** The `k` bytes at `q` are those that were at `p`. */
  ghost predicate Copied(m: seq<Byte>, m': seq<Byte>, start: int, p: int, q: int, k: int) {
    forall i {:trigger CopiedByte(m, m', start, p, q, i)} :: 0 <= i < k ==> CopiedByte(m, m', start, p, q, i)
  }

  lemma ExtensionWords(n: int)
    requires H.IsBlockSize(n)
    ensures var e := H.Extension(n);
      ExtendSize(e / 4) == e && (n > H.CHUNK_SIZE ==> e == n) && (n <= H.CHUNK_SIZE ==> e == H.CHUNK_SIZE)
  {
    SmallMultiples();
    var k :| H.Extension(n) == Eight(k);
    assert H.Extension(n) / 4 == 2 * k;
  }

  lemma KeptGrown(w: Words, w': Words, t: Tiles, n: int)
    requires Tiling(t) && Kept(w, w', t)
    ensures Kept(w, w', Grow(t, n))
  {
    Bounds(t);
    KeptFewer(w, w', Grow(t, n), t);
  }

  /** A `size_t` passed on as an `int`. */
  function ToInt(size: Word): int { if size < INT_LIMIT then size else size - WORD_LIMIT }

  /** The bytes `extend_heap` asks for: an even number of words. */
  function ExtendSize(words: nat): int { if words % 2 != 0 then (words + 1) * 4 else words * 4 }

  lemma ExtendSizeAligned(words: nat)
    ensures Aligned(ExtendSize(words)) && words * 4 <= ExtendSize(words) <= words * 4 + 4
  {
    AlignedMod(ExtendSize(words));
  }
}
