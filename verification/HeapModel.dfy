/** The allocator on abstract state: the tiling and the free list, with the effect of
    `mm_malloc`, `mm_free` and `mm_realloc` on both. */
module HeapModel {

  import opened Bits
  import opened Tiles
  import opened FreeList
  import opened Common

  const CHUNK_SIZE: int := 4096

  /** `stale` is the address the last list entry links to: 0, except while `mm_init` still
      runs on top of a list head left over from an earlier heap. */
  datatype Heap = Heap(t: Tiles, list: seq<int>, stale: int)

  // ---------- the invariant ----------

  /** While a stale address is linked in, the heap is the one `mm_init` builds: a single
      block of `CHUNK_SIZE` bytes, whose epilogue header is not at `stale + 4`. */
  ghost predicate StaleOk(h: Heap) {
    h.stale == 0 ||
    (&& Aligned(h.stale) && h.stale >= h.t.lo + 8 && h.stale != h.t.hi - 8
     && h.t.blocks == map[h.t.lo := Block(8, true), h.t.lo + 8 := Block(CHUNK_SIZE, false)]
     && h.t.hi == h.t.lo + 8 + CHUNK_SIZE)
  }

  /** The part of the invariant that holds between any two steps of an operation. */
  ghost predicate Wf(h: Heap) {
    && Tiling(h.t)
    && Distinct(h.list)
    && (forall a :: a in h.list ==> Free(h.t, a))
    && StaleOk(h)
  }

  /** The list holds every free block, except perhaps `x`. */
  ghost predicate Listed(h: Heap, x: int) {
    forall a :: Free(h.t, a) && a != x ==> a in h.list
  }

  /** The full heap invariant that holds between calls. */
  ghost predicate Inv(h: Heap) {
    Wf(h) && NoAdjacentFree(h.t, 0) && Listed(h, 0) && h.stale == 0
  }

  // ---------- list steps ----------

  function Push(h: Heap, x: int): (r: Heap)
    ensures forall a :: a in r.list <==> a == x || a in h.list
  {
    h.(list := [x] + h.list)
  }

  function Drop(h: Heap, x: int): Heap { h.(list := Without(h.list, {x})) }

  lemma DropWf(h: Heap, x: int)
    requires Wf(h)
    ensures Wf(Drop(h, x))
  {
    WithoutDistinct(h.list, {x});
  }

  /** First fit: the first list entry of at least `n` bytes. */
  function FirstFit(t: Tiles, list: seq<int>, n: int): (r: Option<int>)
    requires forall a :: a in list ==> a in t.blocks
    ensures match r
      case None => forall a :: a in list ==> t.blocks[a].size < n
      case Some(x) => x in list && t.blocks[x].size >= n
  {
    if list == [] then None else
    var a := list[0];
    assert a in list;
    if t.blocks[a].size >= n then Some(a) else FirstFit(t, list[1..], n)
  }

  // ---------- coalesce ----------

  /** What `coalesce` is called on: `x` is free and listed, and only `x` may touch
      another free block. */
  ghost predicate CanCoalesce(h: Heap, x: int) {
    Wf(h) && Free(h.t, x) && x in h.list && NoAdjacentFree(h.t, x) && Listed(h, 0)
  }

  /** The free run around `x` becomes one block at the list head; its members leave the
      list, the other entries keep their order. */
  function Coalesce(h: Heap, x: int): Heap
    requires Tiling(h.t) && x in h.t.blocks && x != h.t.lo
  {
    var s, e := RunStart(h.t, x), RunEnd(h.t, x);
    h.(t := Coalesced(h.t, x), list := [s] + Without(h.list, KeysIn(h.t, s, e)))
  }

  /** Taking the free neighbours and then `x` itself off the list, one at a time, takes
      the whole run off. */
  lemma RunOff(h: Heap, x: int)
    requires CanCoalesce(h, x)
    ensures var p, n := Prev(h.t, x), Next(h.t, x);
      && p < x < n && (Free(h.t, p) ==> p in h.list) && (Free(h.t, n) ==> n in h.list)
      && (n in h.t.blocks || n == h.t.hi)
      && Without(Without(Without(h.list, if Free(h.t, n) then {n} else {}), if Free(h.t, p) then {p} else {}), {x})
         == Without(h.list, KeysIn(h.t, RunStart(h.t, x), RunEnd(h.t, x)))
  {
    var s, e, p, n := RunStart(h.t, x), RunEnd(h.t, x), Prev(h.t, x), Next(h.t, x);
    RunKeys(h.t, x);
    WithoutThrice(h.list, if Free(h.t, n) then {n} else {}, if Free(h.t, p) then {p} else {}, {x}, KeysIn(h.t, s, e));
  }

  /** While a stale address is linked in, the only list entry is the block itself. */
  lemma StaleOff(h: Heap, x: int)
    requires CanCoalesce(h, x) && h.stale != 0 && x != h.t.lo
    ensures Without(h.list, KeysIn(h.t, RunStart(h.t, x), RunEnd(h.t, x))) == []
  {
    RunKeys(h.t, x);
    var off := Without(h.list, KeysIn(h.t, RunStart(h.t, x), RunEnd(h.t, x)));
    if off != [] { FirstIn(off); }
  }

  /** `coalesce` in steps: the run off the list, the run merged, the result pushed. */
  lemma CoalesceSteps(h: Heap, x: int)
    requires CanCoalesce(h, x)
    ensures var t, s, e := h.t, RunStart(h.t, x), RunEnd(h.t, x);
      var off := h.(list := Without(h.list, KeysIn(t, s, e)));
      var merged := off.(t := Coalesced(t, x));
      && Mergeable(t, s, e) && (forall a :: a in off.list ==> Free(t, a) && !(s <= a < e))
      && Wf(merged) && Free(merged.t, s) && s !in merged.list && Push(merged, s) == Coalesce(h, x)
      && (h.stale != 0 ==> off.list == []) && t.lo < x
  {
    hide Tiling, NoAdjacentFree, Distinct, RunStart, RunEnd;
    RunKeys(h.t, x);
    var t, s, e := h.t, RunStart(h.t, x), RunEnd(h.t, x);
    CoalescedTiling(t, x);
    WithoutDistinct(h.list, KeysIn(t, s, e));
    CoalesceStale(h, x);
    if h.stale != 0 { StaleOff(h, x); }
    assert s in KeysIn(t, s, e);
    assert forall a :: a in t.blocks && s <= a < e ==> a in KeysIn(t, s, e);
  }

  /** Afterwards the list holds each free block exactly once. */
  lemma CoalesceList(h: Heap, x: int)
    requires CanCoalesce(h, x)
    ensures Distinct(Coalesce(h, x).list) && forall a :: a in Coalesce(h, x).list <==> Free(Coalesce(h, x).t, a)
  {
    var s, e := RunStart(h.t, x), RunEnd(h.t, x);
    RunKeys(h.t, x);
    WithoutDistinct(h.list, KeysIn(h.t, s, e));
    assert s in KeysIn(h.t, s, e);
  }

  lemma CoalesceStale(h: Heap, x: int)
    requires CanCoalesce(h, x)
    ensures StaleOk(Coalesce(h, x))
  {
    if h.stale != 0 {
      RunKeys(h.t, x);
      assert x == h.t.lo + 8;
      PrevUnique(h.t, h.t.lo, x);
      assert Next(h.t, x) == h.t.hi;
      assert Coalesce(h, x).t.blocks == h.t.blocks;
    }
  }

  /** `coalesce` restores the full invariant, in every case of its neighbours. */
  lemma CoalesceInv(h: Heap, x: int)
    requires CanCoalesce(h, x)
    ensures Wf(Coalesce(h, x)) && NoAdjacentFree(Coalesce(h, x).t, 0) && Listed(Coalesce(h, x), 0)
    ensures h.stale == 0 ==> Inv(Coalesce(h, x))
  {
    CoalescedTiling(h.t, x);
    CoalesceList(h, x);
    CoalesceStale(h, x);
  }

  // ---------- place ----------

  /** What `place` is called on: the block is off the list, is big enough and does not
      touch a free block above it. */
  ghost predicate CanPlace(h: Heap, x: int, n: int) {
    && Wf(h) && h.stale == 0 && x in h.t.blocks && x != h.t.lo && x !in h.list
    && MIN_BLOCK_SIZE <= n <= h.t.blocks[x].size && Aligned(n)
    && NoAdjacentFree(h.t, x) && Listed(h, x) && !Free(h.t, Next(h.t, x))
  }

  /** Allocate `n` bytes at block `x`; a large enough rest becomes a free block at the
      head of the list. */
  function Place(h: Heap, x: int, n: int): Heap
    requires x in h.t.blocks
  {
    if h.t.blocks[x].size - n >= MIN_BLOCK_SIZE
    then Push(h.(t := Split(h.t, x, n)), x + n)
    else h.(t := Relabel(h.t, x, true))
  }

  lemma PlaceTiles(h: Heap, x: int, n: int)
    requires CanPlace(h, x, n)
    ensures Tiling(Place(h, x, n).t) && NoAdjacentFree(Place(h, x, n).t, 0)
    ensures h.t.blocks[x].size - n >= MIN_BLOCK_SIZE ==> x + n !in h.t.blocks
  {
    hide Distinct, Listed, StaleOk, Aligned;
    var u := Place(h, x, n).t;
    var split := h.t.blocks[x].size - n >= MIN_BLOCK_SIZE;
    if split { SplitNew(h.t, x, n); SplitTiling(h.t, x, n); } else { RelabelTiling(h.t, x, true); }
    forall a {:trigger Next(u, a)} | Free(u, a) ensures !Free(u, Next(u, a)) {
      assert Next(u, a) == if split && a == x + n then Next(h.t, x) else Next(h.t, a);
    }
  }

  /** What `place` does to each block. */
  lemma PlaceBlocks(h: Heap, x: int, n: int)
    requires CanPlace(h, x, n)
    ensures var u, split := Place(h, x, n).t, h.t.blocks[x].size - n >= MIN_BLOCK_SIZE;
      && Live(u, x) && n <= u.blocks[x].size <= n + 8 && u.lo == h.t.lo
      && (forall a :: a != x && !(split && a == x + n) ==> (a in h.t.blocks <==> a in u.blocks))
      && (forall a :: a != x && a in h.t.blocks ==> a in u.blocks && h.t.blocks[a] == u.blocks[a])
      && (split ==> x + n != x && x + n !in h.t.blocks && Free(u, x + n))
  {
    hide Tiling, NoAdjacentFree, Listed, StaleOk, Distinct;
    PlaceTiles(h, x, n);
    BlockPlaced(h.t, x);
    AlignedSum(n, h.t.blocks[x].size);
  }

  /** `place` restores the full invariant; the block is `n` or `n + 8` bytes. */
  lemma PlaceInv(h: Heap, x: int, n: int)
    requires CanPlace(h, x, n)
    ensures Inv(Place(h, x, n)) && Live(Place(h, x, n).t, x)
    ensures n <= Place(h, x, n).t.blocks[x].size <= n + 8
    ensures forall a :: a != x ==> (Live(h.t, a) <==> Live(Place(h, x, n).t, a))
    ensures forall a :: a != x && Live(h.t, a) ==> h.t.blocks[a] == Place(h, x, n).t.blocks[a]
  {
    hide Tiling, NoAdjacentFree, Distinct, Split, Relabel;
    PlaceTiles(h, x, n);
    PlaceBlocks(h, x, n);
    if h.t.blocks[x].size - n >= MIN_BLOCK_SIZE { PushDistinct(h.list, x + n); }
  }

  // ---------- extend_heap ----------

  /** The heap grown by a free block of `n` bytes at the list head. */
  function Grown(h: Heap, n: int): Heap { Push(h.(t := Grow(h.t, n)), h.t.hi) }

  lemma GrownInv(h: Heap, n: int)
    requires Inv(h.(stale := 0)) && StaleOk(Grown(h, n)) && n >= MIN_BLOCK_SIZE && Aligned(n)
    ensures CanCoalesce(Grown(h, n), h.t.hi) && h.t.lo < h.t.hi && h.t.hi !in h.t.blocks
  {
    GrowTiling(h.t, n);
    assert h.t.hi !in h.list;
  }

  function Extend(h: Heap, n: int): Heap
    requires Inv(h) && n >= MIN_BLOCK_SIZE && Aligned(n)
  {
    GrownInv(h, n);
    Coalesce(Grown(h, n), h.t.hi)
  }

  /** `extend_heap` keeps the invariant and ends with its block at the list head. */
  lemma ExtendInv(h: Heap, n: int)
    requires Inv(h) && n >= MIN_BLOCK_SIZE && Aligned(n)
    ensures var g := Extend(h, n); var x := g.list[0];
      && Inv(g) && Free(g.t, x) && g.t.blocks[x].size >= n && g.t.hi == h.t.hi + n && g.t.lo == h.t.lo
      && (forall a :: Live(h.t, a) <==> Live(g.t, a))
      && (forall a :: Live(h.t, a) ==> h.t.blocks[a] == g.t.blocks[a])
  {
    GrownInv(h, n);
    var g := Grown(h, n);
    CoalesceInv(g, h.t.hi);
    CoalescedTiling(g.t, h.t.hi);
    RunKeys(g.t, h.t.hi);
  }

  // ---------- the three calls ----------

  ghost predicate IsBlockSize(n: int) { n >= MIN_BLOCK_SIZE && Aligned(n) }

  /** A request whose block size does not wrap around. */
  predicate Request(size: int) { 0 < size && size + 15 < WORD_LIMIT }

  /** The block size for a request. */
  function Need(size: int): (r: int)
    requires Request(size)
    ensures IsBlockSize(r) && size + 8 <= r <= size + 15
  {
    CalcBlockSizeBounds(size);
    AlignedFloor(CalcBlockSize(size));
    CalcBlockSize(size)
  }

  lemma AlignedFloor(n: int)
    requires Aligned(n) && n > 8
    ensures n >= MIN_BLOCK_SIZE
  {
  }

  function Extension(n: int): (r: int)
    requires IsBlockSize(n)
    ensures IsBlockSize(r)
  {
    SmallMultiples();
    Max(n, CHUNK_SIZE)
  }

  function Fit(h: Heap, n: int): Option<int>
    requires Inv(h)
  {
    FirstFit(h.t, h.list, n)
  }

  /** A block of `n` bytes fits, or the heap can grow by one without passing `limit`. */
  ghost predicate HasRoom(h: Heap, n: int, limit: int)
    requires Inv(h) && IsBlockSize(n)
  {
    Fit(h, n).Some? || h.t.hi + Extension(n) <= limit
  }

  /** The block `mm_malloc` carves from, and the heap it is then on. */
  function Reserve(h: Heap, n: int): (Heap, int)
    requires Inv(h) && IsBlockSize(n)
  {
    match Fit(h, n)
    case Some(x) => (h, x)
    case None =>
      var g := Extend(h, Extension(n));
      (g, g.list[0])
  }

  lemma ReserveInv(h: Heap, n: int)
    requires Inv(h) && IsBlockSize(n)
    ensures var (g, x) := Reserve(h, n);
      && Inv(g) && Free(g.t, x) && CanPlace(Drop(g, x), x, n)
      && (forall a :: Live(h.t, a) <==> Live(g.t, a))
      && (forall a :: Live(h.t, a) ==> h.t.blocks[a] == g.t.blocks[a])
      && g.t.hi == h.t.hi + (if Fit(h, n).Some? then 0 else Extension(n)) && g.t.lo == h.t.lo
  {
    if Fit(h, n).None? { ExtendInv(h, Extension(n)); }
    var (g, x) := Reserve(h, n);
    DropWf(g, x);
  }

  /** `mm_malloc` for a block of `n` bytes. */
  function Malloc(h: Heap, n: int): (Heap, int)
    requires Inv(h) && IsBlockSize(n)
  {
    ReserveInv(h, n);
    var (g, x) := Reserve(h, n);
    (Place(Drop(g, x), x, n), x)
  }

  /** `mm_free`. */
  function Released(h: Heap, p: int): Heap
    requires Inv(h) && Live(h.t, p)
  {
    RelabelTiling(h.t, p, false);
    Coalesce(Push(h.(t := Relabel(h.t, p, false)), p), p)
  }

  /** Growing block `p` into the free block above it. */
  function Joined(h: Heap, p: int): Heap
    requires Live(h.t, p) && Free(h.t, Next(h.t, p))
  {
    var n := Next(h.t, p);
    Drop(h, n).(t := Merge(h.t, p, Next(h.t, n), true))
  }

  predicate CanGrow(h: Heap, p: int, n: int)
    requires Live(h.t, p)
  {
    Free(h.t, Next(h.t, p)) && h.t.blocks[p].size + h.t.blocks[Next(h.t, p)].size >= n
  }

  /** `mm_realloc` of live block `p` to a block of `n` bytes. */
  function Realloc(h: Heap, p: int, n: int): (Heap, int)
    requires Inv(h) && IsBlockSize(n) && Live(h.t, p)
  {
    if n <= h.t.blocks[p].size then (h, p)
    else if CanGrow(h, p, n) then (Place(Joined(h, p), p, n), p)
    else
      MallocInv(h, n);
      var (g, q) := Malloc(h, n);
      (Released(g, p), q)
  }

  /** A call changed the set of live blocks only at the blocks in `touched`. */
  ghost predicate SameLive(t: Tiles, u: Tiles, touched: set<int>) {
    && t.lo == u.lo
    && (forall a :: a !in touched ==> (Live(t, a) <==> Live(u, a)))
    && (forall a :: a !in touched && Live(t, a) ==> t.blocks[a] == u.blocks[a])
  }

  /** `mm_malloc` keeps the invariant, hands out a block that was not live, leaves the
      live blocks alone and extends the heap only when nothing fits. */
  lemma MallocInv(h: Heap, n: int)
    requires Inv(h) && IsBlockSize(n)
    ensures var (g, p) := Malloc(h, n);
      && Inv(g) && !Live(h.t, p) && Live(g.t, p) && n <= g.t.blocks[p].size <= n + 8
      && SameLive(h.t, g.t, {p})
      && g.t.hi == h.t.hi + (if Fit(h, n).Some? then 0 else Extension(n))
  {
    ReserveInv(h, n);
    var (g, x) := Reserve(h, n);
    PlaceInv(Drop(g, x), x, n);
  }

  lemma ReleasedReady(h: Heap, p: int)
    requires Inv(h) && Live(h.t, p)
    ensures CanCoalesce(Push(h.(t := Relabel(h.t, p, false)), p), p)
  {
    var u := Relabel(h.t, p, false);
    RelabelTiling(h.t, p, false);
    assert forall a {:trigger Next(u, a)} :: a in u.blocks ==> Next(u, a) == Next(h.t, a);
    PushDistinct(h.list, p);
  }

  /** `mm_free` keeps the invariant, ends exactly one life and leaves the break alone. */
  lemma ReleasedInv(h: Heap, p: int)
    requires Inv(h) && Live(h.t, p)
    ensures var g := Released(h, p);
      Inv(g) && !Live(g.t, p) && SameLive(h.t, g.t, {p}) && g.t.hi == h.t.hi
  {
    ReleasedReady(h, p);
    var g := Push(h.(t := Relabel(h.t, p, false)), p);
    CoalesceInv(g, p);
    CoalescedTiling(g.t, p);
  }

  /** The block above `p` goes, `p` takes its end, and all others stay. */
  lemma JoinedBlocks(t: Tiles, p: int)
    requires Tiling(t) && Live(t, p) && Free(t, Next(t, p))
    ensures var e := Next(t, Next(t, p)); var u := Merge(t, p, e, true);
      && Tiling(u) && Live(u, p) && Next(u, p) == e && Next(t, p) !in u.blocks
      && (forall a :: a != p && a != Next(t, p) ==> (a in t.blocks <==> a in u.blocks))
      && (forall a :: a != p && a in u.blocks ==> u.blocks[a] == t.blocks[a])
  {
    var m := Next(t, p);
    assert Placed(t, p) && Placed(t, m);
    MergeTiling(t, p, Next(t, m), true);
  }

  lemma JoinedTiles(t: Tiles, p: int)
    requires Tiling(t) && NoAdjacentFree(t, 0) && Live(t, p) && Free(t, Next(t, p))
    ensures var e := Next(t, Next(t, p)); var u := Merge(t, p, e, true);
      && Tiling(u) && NoAdjacentFree(u, 0) && Next(u, p) == e && !Free(u, e)
      && (forall a :: a != p && a != Next(t, p) ==> (a in t.blocks <==> a in u.blocks))
      && (forall a :: a != p && a in u.blocks ==> a in t.blocks && u.blocks[a] == t.blocks[a])
      && Next(t, p) !in u.blocks
  {
    hide Tiling, Merge;
    NoBlockAtZero(t);
    JoinedBlocks(t, p);
    var m := Next(t, p);
    var e := Next(t, m);
    var u := Merge(t, p, e, true);
    NoBlockAtZero(u);
    forall a {:trigger Next(u, a)} | Free(u, a) ensures !Free(u, Next(u, a)) {
      assert Next(u, a) == Next(t, a);
    }
  }

  lemma JoinedReady(h: Heap, p: int, n: int)
    requires Inv(h) && Live(h.t, p) && IsBlockSize(n) && CanGrow(h, p, n)
    ensures CanPlace(Joined(h, p), p, n)
    ensures SameLive(h.t, Joined(h, p).t, {p}) && Joined(h, p).t.hi == h.t.hi
  {
    DropWf(h, Next(h.t, p));
    JoinedTiles(h.t, p);
  }

  /** `mm_realloc` keeps the invariant on all its paths: the result is live and big
      enough, the old block is gone unless it is the result, and no other block changes. */
  lemma ReallocInv(h: Heap, p: int, n: int)
    requires Inv(h) && IsBlockSize(n) && Live(h.t, p)
    ensures var (g, q) := Realloc(h, p, n);
      && Inv(g) && Live(g.t, q) && n <= g.t.blocks[q].size && (q == p || !Live(h.t, q))
      && (q != p ==> !Live(g.t, p))
      && SameLive(h.t, g.t, {p, q})
      && h.t.hi <= g.t.hi <= h.t.hi + Extension(n)
      && (g.t.blocks[q].size <= n + 8 || (q == p && g == h))
  {
    if n <= h.t.blocks[p].size {
    } else if CanGrow(h, p, n) {
      JoinedReady(h, p, n);
      PlaceInv(Joined(h, p), p, n);
    } else {
      MallocInv(h, n);
      ReleasedInv(Malloc(h, n).0, p);
    }
  }

  // ---------- mm_init ----------

  /** The prologue alone, with the list head that is still there from before. */
  function Bare(lo: int, stale: int): Heap {
    Heap(Tiles(lo, lo + 8, map[lo := Block(8, true)]), [], stale)
  }

  /** The heap after `mm_init`: one free block of `CHUNK_SIZE` bytes. */
  function Initial(lo: int): Heap {
    Heap(Tiles(lo, lo + 8 + CHUNK_SIZE, map[lo := Block(8, true), lo + 8 := Block(CHUNK_SIZE, false)]), [lo + 8], 0)
  }

  /** List heads from which `mm_init` works: none, or an address that an earlier heap can
      have left, unless its previous-link word is the new epilogue header. */
  ghost predicate StaleHeadOk(lo: int, stale: int) {
    stale == 0 || (Aligned(stale) && stale >= lo + 8 && stale != lo + CHUNK_SIZE)
  }

  lemma BareInv(lo: int, stale: int)
    requires lo > 0 && Aligned(lo) && StaleHeadOk(lo, stale)
    ensures Inv(Bare(lo, stale).(stale := 0)) && StaleOk(Grown(Bare(lo, stale), CHUNK_SIZE))
  {
    SmallMultiples();
    AlignedSum(lo, 8);
    var h := Bare(lo, stale);
    assert Next(h.t, lo) == h.t.hi;
    assert Grow(h.t, CHUNK_SIZE).blocks == map[lo := Block(8, true), lo + 8 := Block(CHUNK_SIZE, false)];
  }

  /** What `extend_heap` makes of the bare prologue, whatever the old list head. */
  lemma InitialCoalesce(lo: int, stale: int)
    requires lo > 0 && Aligned(lo) && StaleHeadOk(lo, stale)
    requires CanCoalesce(Grown(Bare(lo, stale), CHUNK_SIZE), lo + 8)
    ensures Coalesce(Grown(Bare(lo, stale), CHUNK_SIZE), lo + 8) == Initial(lo).(stale := stale)
    ensures Inv(Initial(lo))
  {
    hide Aligned;
    var g := Grown(Bare(lo, stale), CHUNK_SIZE);
    var x := lo + 8;
    assert Next(g.t, lo) == x && Next(g.t, x) == g.t.hi;
    RunKeys(g.t, x);
    PrevUnique(g.t, lo, x);
    CoalesceInv(g, x);
    var c := Coalesce(g, x);
    assert KeysIn(g.t, x, g.t.hi) == {x};
    assert c.t.blocks == Initial(lo).t.blocks;
    assert Without([x], {x}) == [];
    assert c.list == [x];
    assert c.t == Initial(lo).t;
  }

  lemma InitialInv(lo: int)
    requires lo > 0 && Aligned(lo)
    ensures Inv(Initial(lo)) && forall a :: !Live(Initial(lo).t, a)
  {
    SmallMultiples();
    BareInv(lo, 0);
    var h := Bare(lo, 0);
    assert h.(stale := 0) == h;
    GrownInv(h, CHUNK_SIZE);
    InitialCoalesce(lo, 0);
  }
}
