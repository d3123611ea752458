/** The heap as a set of blocks that tile it: a map from payload addresses to blocks, and
    the ways the allocator cuts, joins and relabels blocks. */
module Tiles {

  import opened Bits

  const MIN_BLOCK_SIZE: int := 16

  datatype Block = Block(size: int, alloc: bool)

  /** `lo` is the address of the prologue block and `hi` the break, which is also the
      address of the epilogue block. */
  datatype Tiles = Tiles(lo: int, hi: int, blocks: map<int, Block>)

  predicate Free(t: Tiles, a: int) { a in t.blocks && !t.blocks[a].alloc }

  /** An allocated block other than the prologue. */
  predicate Live(t: Tiles, a: int) { a in t.blocks && t.blocks[a].alloc && a != t.lo }

  function Next(t: Tiles, a: int): int
    requires a in t.blocks
  {
    a + t.blocks[a].size
  }

  ghost predicate Placed(t: Tiles, a: int)
    requires a in t.blocks
  {
    && Aligned(a) && Aligned(t.blocks[a].size)
    && t.lo <= a && a + t.blocks[a].size <= t.hi
    && (a == t.lo || (t.lo + 8 <= a && t.blocks[a].size >= MIN_BLOCK_SIZE))
  }

  /** Blocks tile `[lo, hi)`: aligned, big enough, pairwise disjoint, and each one ends
      where another begins or at the break. */
  ghost predicate Tiling(t: Tiles) {
    && 0 < t.lo && Aligned(t.lo) && Aligned(t.hi)
    && t.lo in t.blocks && t.blocks[t.lo] == Block(8, true)
    && (forall a :: a in t.blocks ==> Placed(t, a))
    && (forall a {:trigger Next(t, a)} :: a in t.blocks ==> Next(t, a) in t.blocks || Next(t, a) == t.hi)
    && (forall a, b :: a in t.blocks && b in t.blocks && a < b ==> a + t.blocks[a].size <= b)
  }

  /** No two free blocks touch, except perhaps at `x`. */
  ghost predicate NoAdjacentFree(t: Tiles, x: int) {
    forall a {:trigger Next(t, a)} :: Free(t, a) && Free(t, Next(t, a)) ==> a == x || Next(t, a) == x
  }

  lemma BlockPlaced(t: Tiles, a: int)
    requires Tiling(t) && a in t.blocks
    ensures Placed(t, a)
  {
  }

  lemma Bounds(t: Tiles)
    requires Tiling(t)
    ensures t.hi !in t.blocks && t.lo + 8 <= t.hi && Aligned(t.hi)
  {
    assert Placed(t, t.lo);
    if t.hi in t.blocks { assert false; }
  }

  lemma NoBlockAtZero(t: Tiles)
    requires Tiling(t)
    ensures 0 !in t.blocks
  {
    if 0 in t.blocks { assert false; }
  }

  // ---------- neighbours ----------

  /** The block before `x`, found by walking up from `b`. */
  function WalkTo(t: Tiles, b: int, x: int): (r: int)
    requires Tiling(t) && b in t.blocks && b < x && (x in t.blocks || x == t.hi)
    ensures r in t.blocks && Next(t, r) == x && r < x
    decreases x - b
  {
    if Next(t, b) == x then b else WalkTo(t, Next(t, b), x)
  }

  function Prev(t: Tiles, x: int): (r: int)
    requires Tiling(t) && t.lo < x && (x in t.blocks || x == t.hi)
    ensures r in t.blocks && Next(t, r) == x && r < x
  {
    WalkTo(t, t.lo, x)
  }

  lemma PrevUnique(t: Tiles, p: int, x: int)
    requires Tiling(t) && t.lo < x && (x in t.blocks || x == t.hi)
    requires p in t.blocks && Next(t, p) == x
    ensures Prev(t, x) == p
  {
    assert Placed(t, p) && Placed(t, Prev(t, x));
  }

  /** Every address of the heap lies in a block. */
  lemma {:induction false} Covered(t: Tiles, b: int, x: int) returns (a: int)
    requires Tiling(t) && b in t.blocks && b <= x < t.hi
    ensures a in t.blocks && a <= x < Next(t, a)
    decreases t.hi - b
  {
    if x < Next(t, b) { a := b; } else { a := Covered(t, Next(t, b), x); }
  }

  // ---------- relabelling and splitting ----------

  function Relabel(t: Tiles, x: int, alloc: bool): Tiles
    requires x in t.blocks
  {
    t.(blocks := t.blocks[x := Block(t.blocks[x].size, alloc)])
  }

  lemma RelabelTiling(t: Tiles, x: int, alloc: bool)
    requires Tiling(t) && x in t.blocks && x != t.lo
    ensures Tiling(Relabel(t, x, alloc))
  {
    var u := Relabel(t, x, alloc);
    forall a | a in u.blocks ensures Placed(u, a) { assert Placed(t, a); }
    forall a {:trigger Next(u, a)} | a in u.blocks
      ensures Next(u, a) in u.blocks || Next(u, a) == u.hi
    {
      assert Next(u, a) == Next(t, a);
    }
  }

  /** Block `x` cut into an allocated block of `n` bytes and a free rest. */
  function Split(t: Tiles, x: int, n: int): Tiles
    requires x in t.blocks
  {
    t.(blocks := t.blocks[x := Block(n, true)][x + n := Block(t.blocks[x].size - n, false)])
  }

  ghost predicate Splittable(t: Tiles, x: int, n: int) {
    && Tiling(t) && x in t.blocks && x != t.lo && Aligned(n)
    && MIN_BLOCK_SIZE <= n <= t.blocks[x].size - MIN_BLOCK_SIZE
  }

  lemma SplitNew(t: Tiles, x: int, n: int)
    requires Splittable(t, x, n)
    ensures x + n !in t.blocks && Aligned(x + n) && Aligned(t.blocks[x].size - n)
  {
    assert Placed(t, x);
    AlignedSum(n, t.blocks[x].size);
    AlignedSum(n, x);
  }

  lemma SplitPlaced(t: Tiles, x: int, n: int)
    requires Splittable(t, x, n)
    ensures forall a :: a in Split(t, x, n).blocks ==> Placed(Split(t, x, n), a)
  {
    var u := Split(t, x, n);
    SplitNew(t, x, n);
    forall a | a in u.blocks ensures Placed(u, a) {
      assert Placed(t, x);
      if a != x && a != x + n { assert Placed(t, a); }
    }
  }

  /** Between the ends of the old block lie exactly the two new ones. */
  lemma SplitRange(t: Tiles, x: int, n: int)
    requires Splittable(t, x, n)
    ensures Next(t, x) in t.blocks || Next(t, x) == t.hi
    ensures forall a :: a in t.blocks && x <= a < Next(t, x) ==> a == x
    ensures forall a :: a in Split(t, x, n).blocks && x <= a < Next(t, x) ==> a == x || a == x + n
    ensures forall a :: a in Split(t, x, n).blocks && !(x <= a < Next(t, x)) ==> a in t.blocks
  {
  }

  lemma SplitTiling(t: Tiles, x: int, n: int)
    requires Splittable(t, x, n)
    ensures Tiling(Split(t, x, n))
  {
    var u := Split(t, x, n);
    SplitNew(t, x, n);
    SplitPlaced(t, x, n);
    forall a {:trigger Next(u, a)} | a in u.blocks
      ensures Next(u, a) in u.blocks || Next(u, a) == u.hi
    {
      if a == x + n { assert Next(u, a) == Next(t, x); }
      else if a != x { assert Next(u, a) == Next(t, a); }
    }
  }

  // ---------- growing ----------

  /** The heap grown at its end by a free block of `n` bytes. */
  function Grow(t: Tiles, n: int): Tiles {
    t.(hi := t.hi + n, blocks := t.blocks[t.hi := Block(n, false)])
  }

  lemma GrowTiling(t: Tiles, n: int)
    requires Tiling(t) && n >= MIN_BLOCK_SIZE && Aligned(n)
    ensures Tiling(Grow(t, n)) && t.hi !in t.blocks && t.lo < t.hi
    ensures NoAdjacentFree(t, 0) ==> NoAdjacentFree(Grow(t, n), t.hi)
  {
    var u := Grow(t, n);
    Bounds(t);
    AlignedSum(n, t.hi);
    forall a | a in u.blocks ensures Placed(u, a) {
      if a != t.hi { assert Placed(t, a); }
    }
    forall a {:trigger Next(u, a)} | a in u.blocks
      ensures Next(u, a) in u.blocks || Next(u, a) == u.hi
      ensures NoAdjacentFree(t, 0) && Free(u, a) && Free(u, Next(u, a)) ==> a == t.hi || Next(u, a) == t.hi
    {
      if a != t.hi { assert Next(t, a) == Next(u, a); }
    }
  }

  // ---------- merging ----------

  function KeysIn(t: Tiles, s: int, e: int): set<int> {
    set a | a in t.blocks && s <= a < e
  }

  /** The blocks of `[s, e)` replaced by one. */
  function Merge(t: Tiles, s: int, e: int, alloc: bool): Tiles {
    t.(blocks := (t.blocks - KeysIn(t, s, e))[s := Block(e - s, alloc)])
  }

  ghost predicate Mergeable(t: Tiles, s: int, e: int) {
    Tiling(t) && s in t.blocks && s != t.lo && s + MIN_BLOCK_SIZE <= e && (e in t.blocks || e == t.hi)
  }

  lemma MergeBlock(t: Tiles, s: int, e: int, alloc: bool, a: int)
    requires Mergeable(t, s, e) && a in Merge(t, s, e, alloc).blocks
    ensures var u := Merge(t, s, e, alloc);
      if a == s then u.blocks[a] == Block(e - s, alloc)
      else a in t.blocks && u.blocks[a] == t.blocks[a] && (a + t.blocks[a].size <= s || e <= a)
  {
  }

  lemma MergePlaced(t: Tiles, s: int, e: int, alloc: bool, a: int)
    requires Mergeable(t, s, e) && a in Merge(t, s, e, alloc).blocks
    ensures Placed(Merge(t, s, e, alloc), a)
  {
    Bounds(t);
    MergeBlock(t, s, e, alloc, a);
    assert e in t.blocks ==> Placed(t, e);
    assert Placed(t, s);
    AlignedSum(s, e);
    if a != s { assert Placed(t, a); }
  }

  lemma MergeTiling(t: Tiles, s: int, e: int, alloc: bool)
    requires Mergeable(t, s, e)
    ensures Tiling(Merge(t, s, e, alloc))
  {
    hide Aligned;
    var u := Merge(t, s, e, alloc);
    forall a | a in u.blocks ensures Placed(u, a) {
      MergePlaced(t, s, e, alloc, a);
    }
    forall a {:trigger Next(u, a)} | a in u.blocks
      ensures Next(u, a) in u.blocks || Next(u, a) == u.hi
    {
      MergeBlock(t, s, e, alloc, a);
      if a != s { assert Next(t, a) == Next(u, a); }
    }
    forall a, b | a in u.blocks && b in u.blocks && a < b
      ensures a + u.blocks[a].size <= b
    {
      MergeBlock(t, s, e, alloc, a);
      MergeBlock(t, s, e, alloc, b);
    }
  }

  // ---------- the free run around a block ----------

  function RunStart(t: Tiles, x: int): int
    requires Tiling(t) && x in t.blocks && x != t.lo
  {
    assert Placed(t, x);
    if Free(t, Prev(t, x)) then Prev(t, x) else x
  }

  function RunEnd(t: Tiles, x: int): int
    requires x in t.blocks
  {
    if Free(t, Next(t, x)) then Next(t, Next(t, x)) else Next(t, x)
  }

  /** The tiles with the free run around `x` merged into one free block. */
  function Coalesced(t: Tiles, x: int): Tiles
    requires Tiling(t) && x in t.blocks && x != t.lo
  {
    Merge(t, RunStart(t, x), RunEnd(t, x), false)
  }

  /** The run is exactly `x` and its free neighbours, and nothing free touches it. */
  lemma RunKeys(t: Tiles, x: int)
    requires Tiling(t) && Free(t, x) && NoAdjacentFree(t, x)
    ensures t.lo < x
    ensures var s, e := RunStart(t, x), RunEnd(t, x);
      && Mergeable(t, s, e) && Free(t, s) && s <= x && Next(t, x) <= e
      && (forall a :: a in KeysIn(t, s, e) <==> a == x || (Free(t, a) && (a == Prev(t, x) || a == Next(t, x))))
      && !Free(t, e) && !Free(t, Prev(t, s))
  {
    hide Aligned;
    assert Placed(t, x);
    var s, e, p, n := RunStart(t, x), RunEnd(t, x), Prev(t, x), Next(t, x);
    Bounds(t);
    assert Placed(t, p);
    if Free(t, n) { assert Placed(t, n); assert Next(t, n) == e; }
    if Free(t, p) { var q := Prev(t, p); assert Next(t, q) == p; }
    assert Next(t, p) == x;
  }

  lemma CoalescedApart(t: Tiles, x: int, a: int)
    requires Tiling(t) && Free(t, x) && NoAdjacentFree(t, x)
    requires Free(Coalesced(t, x), a)
    ensures !Free(Coalesced(t, x), Next(Coalesced(t, x), a))
  {
    hide Aligned;
    var u, s, e := Coalesced(t, x), RunStart(t, x), RunEnd(t, x);
    RunKeys(t, x);
    MergeBlock(t, s, e, false, a);
    if Next(u, a) in u.blocks { MergeBlock(t, s, e, false, Next(u, a)); }
    if a != s {
      assert Next(t, a) == Next(u, a);
      if Next(t, a) == s { PrevUnique(t, a, s); }
    }
  }

  lemma CoalescedTiling(t: Tiles, x: int)
    requires Tiling(t) && Free(t, x) && NoAdjacentFree(t, x)
    ensures Tiling(Coalesced(t, x)) && NoAdjacentFree(Coalesced(t, x), 0)
    ensures Free(Coalesced(t, x), RunStart(t, x))
    ensures forall a :: Live(t, a) <==> Live(Coalesced(t, x), a)
    ensures forall a :: Live(t, a) ==> t.blocks[a] == Coalesced(t, x).blocks[a]
  {
    hide Tiling, RunStart, RunEnd;
    RunKeys(t, x);
    var u := Coalesced(t, x);
    MergeTiling(t, RunStart(t, x), RunEnd(t, x), false);
    forall a {:trigger Next(u, a)} | Free(u, a) ensures !Free(u, Next(u, a)) {
      CoalescedApart(t, x, a);
    }
  }
}
