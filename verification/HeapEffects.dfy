/** The exact effect of each call on the tiling and on the list, told from the state before
    the call and the state after it. */
module HeapEffects {

  import opened Bits
  import opened Common
  import opened Tiles
  import opened FreeList
  import opened HeapModel

  /** The same blocks except within `[s, e)`. */
  ghost predicate OnlyWithin(t: Tiles, u: Tiles, s: int, e: int) {
    forall a :: !(s <= a < e) ==> (a in t.blocks <==> a in u.blocks) && (a in t.blocks ==> t.blocks[a] == u.blocks[a])
  }

  /** First fit really is the first: everything before it on the list is too small. */
  lemma {:induction false} FirstFitIsFirst(t: Tiles, list: seq<int>, n: int) returns (k: nat)
    requires forall a :: a in list ==> a in t.blocks
    ensures k <= |list| && forall i :: 0 <= i < k ==> list[i] in t.blocks && t.blocks[list[i]].size < n
    ensures match FirstFit(t, list, n)
      case None => k == |list|
      case Some(x) => k < |list| && list[k] == x && t.blocks[x].size >= n
  {
    k := 0;
    if list == [] {
    } else {
      var a := list[0];
      assert a in list;
      if t.blocks[a].size < n {
        assert forall b :: b in list[1..] ==> b in list;
        k := FirstFitIsFirst(t, list[1..], n);
        k := k + 1;
      }
    }
  }

  /** Where `mm_malloc` finds a fit: only the chosen block changes, it keeps its end or ends
      where a new free block begins, and the list loses it and gains that block in front. */
  lemma MallocEffect(h: Heap, n: int)
    requires Inv(h) && IsBlockSize(n) && Fit(h, n).Some?
    ensures var (g, p) := Malloc(h, n);
      && Free(h.t, p) && Live(g.t, p) && OnlyWithin(h.t, g.t, p, Next(h.t, p)) && g.t.hi == h.t.hi
      && (if g.t.blocks[p].size == h.t.blocks[p].size
          then h.t.blocks[p].size - n < MIN_BLOCK_SIZE && g.list == Without(h.list, {p})
          else g.t.blocks[p].size == n && Free(g.t, p + n) && Next(g.t, p + n) == Next(h.t, p)
               && g.list == [p + n] + Without(h.list, {p}))
  {
    hide Tiling, NoAdjacentFree, Without, StaleOk;
    ReserveInv(h, n);
    MallocInv(h, n);
    BlockPlaced(h.t, Malloc(h, n).1);
  }

  /** The free block at the end of the heap, or else the break. */
  function Top(t: Tiles): (r: int)
    requires Tiling(t)
    ensures (r == t.hi && r !in t.blocks) || (Free(t, r) && Next(t, r) == t.hi)
  {
    Bounds(t);
    if Free(t, Prev(t, t.hi)) then Prev(t, t.hi) else t.hi
  }

  lemma GrownEnds(t: Tiles, n: int)
    requires Tiling(t) && NoAdjacentFree(t, 0) && n >= MIN_BLOCK_SIZE && Aligned(n)
    ensures Tiling(Grow(t, n)) && NoAdjacentFree(Grow(t, n), t.hi) && t.hi in Grow(t, n).blocks && t.lo < t.hi
    ensures RunStart(Grow(t, n), t.hi) == Top(t) && RunEnd(Grow(t, n), t.hi) == t.hi + n
  {
    Bounds(t);
    GrowTiling(t, n);
    var u, last := Grow(t, n), Prev(t, t.hi);
    assert Next(u, last) == t.hi;
    PrevUnique(u, last, t.hi);
    Bounds(u);
  }

  /** `extend_heap` leaves one free block that ends at the new break: the new bytes, joined
      to the last block if that was free. */
  lemma ExtendBlocks(h: Heap, n: int)
    requires Inv(h) && IsBlockSize(n)
    ensures var u, p := Extend(h, n).t, Top(h.t);
      Free(u, p) && Next(u, p) == u.hi == h.t.hi + n && OnlyWithin(h.t, u, p, u.hi)
  {
    GrownInv(h, n);
    GrownEnds(h.t, n);
    var u, x, p := Grow(h.t, n), h.t.hi, Top(h.t);
    RunKeys(u, x);
    MergedOnlyWithin(u, p, x + n);
    Bounds(h.t);
    assert OnlyWithin(h.t, u, x, x + n);
  }

  lemma ExtendList(h: Heap, n: int)
    requires Inv(h) && IsBlockSize(n)
    ensures Extend(h, n).list == [Top(h.t)] + Without(h.list, {Top(h.t)})
  {
    hide Tiling, NoAdjacentFree, StaleOk, Distinct, Placed;
    GrownInv(h, n);
    GrownEnds(h.t, n);
    var u, x, p := Grow(h.t, n), h.t.hi, Top(h.t);
    RunKeys(u, x);
    assert ([x] + h.list)[1..] == h.list;
    assert x in KeysIn(u, p, x + n);
    WithoutSame(h.list, KeysIn(u, p, x + n), {p});
  }

  /** `place`: the block ends where it did, or where the free rest begins. */
  lemma PlaceEffect(h: Heap, x: int, n: int)
    requires CanPlace(h, x, n)
    ensures var g := Place(h, x, n);
      && Live(g.t, x) && g.t.hi == h.t.hi && OnlyWithin(h.t, g.t, x, Next(h.t, x))
      && (if Next(g.t, x) == Next(h.t, x) then g.list == h.list
          else Next(g.t, x) == x + n && Free(g.t, x + n) && Next(g.t, x + n) == Next(h.t, x)
               && g.list == [x + n] + h.list)
  {
    assert Placed(h.t, x);
  }

  /** Block `p` was carved from the top of `h`; it and what it left end at the new break. */
  ghost predicate FromTop(h: Heap, n: int, g: Heap, p: int) {
    && Live(g.t, p) && OnlyWithin(h.t, g.t, p, g.t.hi)
    && (if Next(g.t, p) == g.t.hi then g.list == Without(h.list, {p})
        else Free(g.t, p + n) && Next(g.t, p) == p + n && Next(g.t, p + n) == g.t.hi
             && g.list == [p + n] + Without(h.list, {p}))
  }

  /** Without a fit `mm_malloc` allocates from the top: from the free block that ended the
      heap, or else from the old break on. */
  lemma MallocGrows(h: Heap, n: int)
    requires Inv(h) && IsBlockSize(n) && Fit(h, n).None?
    ensures var (g, p) := Malloc(h, n);
      p == Top(h.t) && g.t.hi == h.t.hi + Extension(n) && FromTop(h, n, g, p)
  {
    var e := Extension(n);
    var (g, p) := Malloc(h, n);
    ExtendInv(h, e);
    ExtendBlocks(h, e);
    ExtendList(h, e);
    ReserveInv(h, n);
    GrownThenPlaced(h, n, Extend(h, e), g, p);
  }

  lemma GrownThenPlaced(h: Heap, n: int, x: Heap, g: Heap, p: int)
    requires CanPlace(Drop(x, p), p, n) && g == Place(Drop(x, p), p, n)
    requires p in x.t.blocks && Next(x.t, p) == x.t.hi && OnlyWithin(h.t, x.t, p, x.t.hi)
    requires x.list == [p] + Without(h.list, {p})
    ensures g.t.hi == x.t.hi && FromTop(h, n, g, p)
  {
    PlaceEffect(Drop(x, p), p, n);
    assert x.list[1..] == Without(h.list, {p});
    WithoutTwice(h.list, {p}, {p});
    WithoutSame(h.list, {p} + {p}, {p});
  }

  /** `mm_free` makes one free block of the freed one and its free neighbours, and nothing
      more: it ends at live blocks or at the break. */
  lemma ReleasedBlocks(h: Heap, p: int)
    requires Inv(h) && Live(h.t, p)
    ensures var g := Released(h, p); var below, above := Prev(h.t, p), Next(h.t, p);
      var s := if Free(h.t, below) then below else p;
      var e := if Free(h.t, above) then Next(h.t, above) else above;
      && Free(g.t, s) && Next(g.t, s) == e && OnlyWithin(h.t, g.t, s, e)
      && (forall a :: a in g.t.blocks && s <= a < e ==> a == s)
      && !Free(g.t, e) && g.list[0] == s
  {
    hide Tiling, NoAdjacentFree, Merge, KeysIn, Without;
    ReleasedReady(h, p);
    ReleasedInv(h, p);
    RelabelledEnds(h.t, p);
    var u := Relabel(h.t, p, false);
    RunKeys(u, p);
    MergedOnlyWithin(u, RunStart(u, p), RunEnd(u, p));
    assert OnlyWithin(h.t, u, p, p + 1);
  }

  lemma MergedOnlyWithin(t: Tiles, s: int, e: int)
    requires Mergeable(t, s, e)
    ensures var u := Merge(t, s, e, false);
      && OnlyWithin(t, u, s, e) && Free(u, s) && Next(u, s) == e
      && forall a :: a in u.blocks && s <= a < e ==> a == s
  {
  }

  /** The list after `mm_free`: the merged block in front, then the old list without the
      swallowed neighbours, in order. */
  lemma ReleasedList(h: Heap, p: int)
    requires Inv(h) && Live(h.t, p)
    ensures var below, above := Prev(h.t, p), Next(h.t, p);
      Released(h, p).list == [if Free(h.t, below) then below else p] + Without(h.list, {below, above})
  {
    hide Tiling, NoAdjacentFree, StaleOk, Distinct, Placed;
    ReleasedReady(h, p);
    RelabelledEnds(h.t, p);
    var u, below, above := Relabel(h.t, p, false), Prev(h.t, p), Next(h.t, p);
    RunKeys(u, p);
    var gone := KeysIn(u, RunStart(u, p), RunEnd(u, p));
    assert ([p] + h.list)[1..] == h.list;
    assert p in gone;
    WithoutSame(h.list, gone, {below, above});
  }

  lemma RelabelledEnds(t: Tiles, p: int)
    requires Tiling(t) && NoAdjacentFree(t, 0) && Live(t, p) && Tiling(Relabel(t, p, false))
    ensures t.lo < p && p in Relabel(t, p, false).blocks
    ensures var u := Relabel(t, p, false); var below, above := Prev(t, p), Next(t, p);
      && below < p < above
      && RunStart(u, p) == (if Free(t, below) then below else p)
      && RunEnd(u, p) == (if Free(t, above) then Next(t, above) else above)
      && Prev(u, p) == below && Next(u, p) == above && NoAdjacentFree(u, p)
  {
    hide StaleOk;
    assert Placed(t, p);
    var u, below := Relabel(t, p, false), Prev(t, p);
    assert Next(u, below) == p;
    PrevUnique(u, below, p);
    assert forall a {:trigger Next(u, a)} :: a in u.blocks ==> Next(u, a) == Next(t, a);
  }

  /** `mm_realloc` into the block above: the joined block keeps its start, the block above
      leaves the list, and a large enough rest is free again and first on the list. */
  lemma GrowEffect(h: Heap, p: int, n: int)
    requires Inv(h) && IsBlockSize(n) && Live(h.t, p) && n > h.t.blocks[p].size && CanGrow(h, p, n)
    ensures var (g, q) := Realloc(h, p, n); var above := Next(h.t, p); var e := Next(h.t, above);
      && q == p && g.t.hi == h.t.hi && OnlyWithin(h.t, g.t, p, e)
      && (if e - p - n < MIN_BLOCK_SIZE
          then Next(g.t, p) == e && g.list == Without(h.list, {above})
          else Next(g.t, p) == p + n && Free(g.t, p + n) && Next(g.t, p + n) == e
               && g.list == [p + n] + Without(h.list, {above}))
  {
    hide Tiling, NoAdjacentFree, Without, StaleOk, Distinct;
    JoinedReady(h, p, n);
    BlockPlaced(h.t, p);
    BlockPlaced(h.t, Next(h.t, p));
  }

  /** `mm_realloc` keeps the address exactly where the block is large enough, or would be
      together with a free block just above it; a block that is large enough stays as it is. */
  lemma ReallocStays(h: Heap, p: int, n: int)
    requires Inv(h) && IsBlockSize(n) && Live(h.t, p)
    ensures var (g, q) := Realloc(h, p, n);
      var b, above := h.t.blocks, p + h.t.blocks[p].size;
      && (q == p <==> b[p].size >= n || (above in b && !b[above].alloc && b[p].size + b[above].size >= n))
      && (b[p].size >= n ==> g == h)
      && (q == p ==> g.t.hi == h.t.hi)
  {
    hide Inv, Malloc, Released;
    ReallocInv(h, p, n);
    if n > h.t.blocks[p].size && !CanGrow(h, p, n) { MallocInv(h, n); }
  }

  /** Anywhere else `mm_realloc` is an allocation of `n` bytes followed by the release of `p`:
      the old block and its free neighbours become one free block, first on the list, and
      nothing else of the heap after the allocation changes. */
  lemma ReallocMoves(h: Heap, p: int, n: int)
    requires Inv(h) && IsBlockSize(n) && Live(h.t, p)
    requires var b, above := h.t.blocks, p + h.t.blocks[p].size;
      b[p].size < n && !(above in b && !b[above].alloc && b[p].size + b[above].size >= n)
    ensures var (g, q) := Realloc(h, p, n);
      var (m, x) := Malloc(h, n);
      && q == x && Inv(m) && Live(m.t, p) && g.t.hi == m.t.hi
      && var below, above := Prev(m.t, p), Next(m.t, p);
         var s := if Free(m.t, below) then below else p;
         var e := if Free(m.t, above) then Next(m.t, above) else above;
         && Free(g.t, s) && Next(g.t, s) == e && OnlyWithin(m.t, g.t, s, e)
         && (forall a :: a in g.t.blocks && s <= a < e ==> a == s)
         && g.list == [s] + Without(m.list, {below, above})
  {
    hide Malloc, Released, Place, Tiling, NoAdjacentFree, StaleOk, Distinct;
    MallocInv(h, n);
    var (m, x) := Malloc(h, n);
    BlockPlaced(m.t, p);
    ReleasedInv(m, p);
    ReleasedBlocks(m, p);
    ReleasedList(m, p);
  }
}
