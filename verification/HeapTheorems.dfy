/** What follows for the abstract allocator, over single calls and over whole runs. */
module HeapTheorems {

  import opened Bits
  import opened Common
  import opened Tiles
  import opened FreeList
  import opened HeapModel
  import opened HeapEffects

  // ---------- the tiling as a sequence ----------

  /** The blocks from address `a` up to the break, in address order. */
  ghost function Upwards(t: Tiles, a: int): seq<int>
    requires Tiling(t) && (a in t.blocks || a == t.hi)
    decreases t.hi - a
  {
    if a == t.hi then [] else
    assert Placed(t, a);
    [a] + Upwards(t, Next(t, a))
  }

  ghost function TotalSize(t: Tiles, s: seq<int>): int
    requires forall a :: a in s ==> a in t.blocks
  {
    if s == [] then 0 else
    var first := s[0];
    assert first in s;
    t.blocks[first].size + TotalSize(t, s[1..])
  }

  lemma {:induction false} UpwardsBlocks(t: Tiles, a: int)
    requires Tiling(t) && (a in t.blocks || a == t.hi)
    ensures forall b :: b in Upwards(t, a) <==> b in t.blocks && b >= a
    ensures Distinct(Upwards(t, a))
    ensures TotalSize(t, Upwards(t, a)) == t.hi - a
    decreases t.hi - a
  {
    Bounds(t);
    if a == t.hi {
      assert forall b :: b in t.blocks ==> Placed(t, b);
    } else {
      var n := Next(t, a);
      UpwardsBlocks(t, n);
      PushDistinct(Upwards(t, n), a);
      assert Upwards(t, a)[1..] == Upwards(t, n);
      forall b ensures b in Upwards(t, a) <==> b in t.blocks && b >= a {
        assert b in Upwards(t, a) <==> b == a || b in Upwards(t, n);
      }
    }
  }

  /** The blocks tile the heap: walking up from the prologue meets every block once, and
      the sizes of the blocks other than the prologue add up to the heap size less 16. */
  lemma TilingIsAWalk(t: Tiles, heapSize: int)
    requires Tiling(t) && heapSize == t.hi - (t.lo - 8)
    ensures var s := Upwards(t, t.lo);
      && Distinct(s) && (forall b :: b in s <==> b in t.blocks)
      && s[0] == t.lo && (forall b :: b in s[1..] ==> b in t.blocks) && TotalSize(t, s[1..]) == heapSize - 16
  {
    assert Next(t, t.lo) == t.lo + 8;
    Bounds(t);
    UpwardsBlocks(t, t.lo);
    UpwardsBlocks(t, t.lo + 8);
    assert Upwards(t, t.lo)[1..] == Upwards(t, t.lo + 8);
    assert forall b :: b in t.blocks ==> Placed(t, b);
  }

  // ---------- single calls ----------

  /** `mm_malloc` extends the heap if and only if no free block anywhere in the tiling is
      large enough. */
  lemma MallocExtends(h: Heap, n: int)
    requires Inv(h) && IsBlockSize(n)
    ensures Malloc(h, n).0.t.hi != h.t.hi <==> forall a :: Free(h.t, a) ==> h.t.blocks[a].size < n
  {
    MallocInv(h, n);
    assert forall a :: Free(h.t, a) ==> a in h.list by { NoBlockAtZero(h.t); }
  }

  /** Freeing what `mm_malloc` just returned gives back the tiling it carved from, with
      the used block moved to the front of the list. */
  lemma PlaceThenFree(g: Heap, x: int, n: int)
    requires Inv(g) && Free(g.t, x) && IsBlockSize(n) && n <= g.t.blocks[x].size
    requires CanPlace(Drop(g, x), x, n)
    ensures Inv(Place(Drop(g, x), x, n)) && Live(Place(Drop(g, x), x, n).t, x)
    ensures Released(Place(Drop(g, x), x, n), x) == g.(list := [x] + Without(g.list, {x}))
  {
    var d := Drop(g, x);
    var h := Place(d, x, n);
    PlaceInv(d, x, n);
    ReleasedReady(h, x);
    var r := Push(h.(t := Relabel(h.t, x, false)), x);
    var e := Next(g.t, x);
    RunKeys(r.t, x);
    PlacedRun(g, x, n, r.t);
    var split := g.t.blocks[x].size - n >= MIN_BLOCK_SIZE;
    var gone := KeysIn(r.t, x, e);
    assert Released(h, x).list == [x] + Without(r.list, gone);
    WithoutSame(d.list, gone, {});
    WithoutNone(d.list, {});
    if split {
      assert r.list == [x] + ([x + n] + d.list);
      assert ([x] + ([x + n] + d.list))[1..] == [x + n] + d.list;
      assert ([x + n] + d.list)[1..] == d.list;
    } else {
      assert r.list == [x] + d.list;
      assert ([x] + d.list)[1..] == d.list;
    }
  }

  /** The tiling after freeing, before coalescing: the block cut in two, or as it was. */
  lemma PlacedBlocks(g: Heap, x: int, n: int)
    requires Inv(g) && Free(g.t, x) && IsBlockSize(n) && n <= g.t.blocks[x].size
    ensures var u := Relabel(Place(Drop(g, x), x, n).t, x, false); var size := g.t.blocks[x].size;
      u == if size - n >= MIN_BLOCK_SIZE
           then g.t.(blocks := g.t.blocks[x := Block(n, false)][x + n := Block(size - n, false)])
           else g.t
  {
    var u := Relabel(Place(Drop(g, x), x, n).t, x, false);
    if g.t.blocks[x].size - n < MIN_BLOCK_SIZE { assert u.blocks == g.t.blocks; }
    else { assert u.blocks == g.t.blocks[x := Block(n, false)][x + n := Block(g.t.blocks[x].size - n, false)]; }
  }

  lemma PlacedEnds(g: Heap, x: int, n: int, u: Tiles)
    requires Inv(g) && Free(g.t, x) && IsBlockSize(n) && n <= g.t.blocks[x].size
    requires u == Relabel(Place(Drop(g, x), x, n).t, x, false) && Tiling(u)
    ensures x in u.blocks && x != u.lo && RunStart(u, x) == x && RunEnd(u, x) == Next(g.t, x)
  {
    PlacedBlocks(g, x, n);
    assert Placed(g.t, x);
    var p := Prev(g.t, x);
    assert !Free(g.t, p) by { assert Next(g.t, p) == x; }
    assert !Free(g.t, Next(g.t, x));
    assert Next(u, p) == x;
    PrevUnique(u, p, x);
    if g.t.blocks[x].size - n >= MIN_BLOCK_SIZE { SplitNew(g.t, x, n); }
  }

  /** Once freed, the carved block and its rest are one run that spans the old block. */
  lemma PlacedRun(g: Heap, x: int, n: int, u: Tiles)
    requires Inv(g) && Free(g.t, x) && IsBlockSize(n) && n <= g.t.blocks[x].size
    requires u == Relabel(Place(Drop(g, x), x, n).t, x, false) && Tiling(u)
    ensures x in u.blocks && x != u.lo && RunStart(u, x) == x && RunEnd(u, x) == Next(g.t, x)
    ensures Coalesced(u, x) == g.t
    ensures forall a :: a in KeysIn(u, x, Next(g.t, x)) <==>
              a == x || (g.t.blocks[x].size - n >= MIN_BLOCK_SIZE && a == x + n)
  {
    PlacedEnds(g, x, n, u);
    PlacedKeys(g, x, n, u);
    PlacedBlocks(g, x, n);
    RejoinTiles(g.t, u, x, n);
  }

  lemma TwoDiffer(s: seq<int>)
    requires Distinct(s) && |s| > 1
    ensures s[0] != s[1]
  {
  }

  lemma RejoinTiles(t: Tiles, u: Tiles, x: int, n: int)
    requires x in t.blocks && !t.blocks[x].alloc
    requires var b := t.blocks; var split := b[x].size - n >= MIN_BLOCK_SIZE;
      && (forall a :: a in KeysIn(u, x, Next(t, x)) <==> a == x || (split && a == x + n)) && (split ==> x + n !in b)
      && u == if split then t.(blocks := b[x := Block(n, false)][x + n := Block(b[x].size - n, false)]) else t
    ensures Merge(u, x, Next(t, x), false) == t
  {
    RejoinBlocks(t.blocks, u.blocks, x, n, KeysIn(u, x, Next(t, x)));
  }

  lemma RejoinBlocks(b: map<int, Block>, u: map<int, Block>, x: int, n: int, gone: set<int>)
    requires x in b && !b[x].alloc
    requires var split := b[x].size - n >= MIN_BLOCK_SIZE;
      && (forall a :: a in gone <==> a == x || (split && a == x + n)) && (split ==> x + n !in b)
      && u == if split then b[x := Block(n, false)][x + n := Block(b[x].size - n, false)] else b
    ensures (u - gone)[x := Block(b[x].size, false)] == b
  {
    var r := (u - gone)[x := Block(b[x].size, false)];
    assert b[x] == Block(b[x].size, false);
    assert forall a :: a in r <==> a in b;
    assert forall a :: a in b ==> r[a] == b[a];
  }

  lemma PlacedKeys(g: Heap, x: int, n: int, u: Tiles)
    requires Inv(g) && Free(g.t, x) && IsBlockSize(n) && n <= g.t.blocks[x].size
    requires u == Relabel(Place(Drop(g, x), x, n).t, x, false)
    ensures forall a :: a in KeysIn(u, x, Next(g.t, x)) <==>
              a == x || (g.t.blocks[x].size - n >= MIN_BLOCK_SIZE && a == x + n)
    ensures g.t.blocks[x].size - n >= MIN_BLOCK_SIZE ==> x + n !in g.t.blocks
  {
    PlacedBlocks(g, x, n);
    assert Placed(g.t, x);
    if g.t.blocks[x].size - n >= MIN_BLOCK_SIZE { SplitNew(g.t, x, n); }
  }

  /** `mm_free` undoes `mm_malloc`: with a fit the tiling returns exactly and the list is
      the old one with the used block moved to the front; without one, the heap is the one
      just after `extend_heap`. */
  lemma MallocThenFree(h: Heap, n: int)
    requires Inv(h) && IsBlockSize(n)
    ensures var (g, p) := Malloc(h, n);
      && Inv(g) && Live(g.t, p)
      && Released(g, p) == match Fit(h, n)
                           case Some(x) => h.(list := [x] + Without(h.list, {x}))
                           case None => Extend(h, Extension(n))
  {
    ReserveInv(h, n);
    MallocInv(h, n);
    var (g, x) := Reserve(h, n);
    assert n <= g.t.blocks[x].size by { if Fit(h, n).None? { ExtendInv(h, Extension(n)); } }
    PlaceThenFree(g, x, n);
    if Fit(h, n).None? {
      ExtendInv(h, Extension(n));
      assert g.list[0] == x && g.list == [x] + g.list[1..];
      forall a | a in g.list[1..] ensures a !in {x} {
        var i :| 0 <= i < |g.list[1..]| && g.list[1..][i] == a;
        assert g.list[i + 1] == a;
      }
      WithoutNone(g.list[1..], {x});
    }
  }

  /** When nothing is live, the heap is one free block and the list holds just that. */
  lemma NothingLive(h: Heap, heapSize: int)
    requires Inv(h) && (forall a :: !Live(h.t, a)) && h.t.hi > h.t.lo + 8 && heapSize == h.t.hi - (h.t.lo - 8)
    ensures h.t.blocks == map[h.t.lo := Block(8, true), h.t.lo + 8 := Block(heapSize - 16, false)]
    ensures h.list == [h.t.lo + 8]
  {
    var t := h.t;
    var x := t.lo + 8;
    NoBlockAtZero(t);
    assert Next(t, t.lo) == x;
    assert !Live(t, x) && Free(t, x);
    assert !Live(t, Next(t, x)) && Next(t, x) == t.hi;
    forall a | a in t.blocks ensures a == t.lo || a == x {
      assert Placed(t, a) && Placed(t, x);
    }
    assert forall a :: a in h.list ==> a == x;
    assert x in h.list;
    forall i | 0 <= i < |h.list| ensures h.list[i] == x { assert h.list[i] in h.list; }
    if |h.list| > 1 {
      TwoDiffer(h.list);
      assert false;
    }
  }

  // ---------- runs ----------

  /** A call of the allocator: `mm_malloc` of a positive size, `mm_free` of a live block,
      `mm_realloc` of a live block to a positive size. */
  datatype Call = Alloc(size: int) | Dealloc(p: int) | Resize(p: int, size: int)

  predicate Enabled(h: Heap, call: Call) {
    match call
    case Alloc(size) => Request(size)
    case Dealloc(p) => Live(h.t, p)
    case Resize(p, size) => Live(h.t, p) && Request(size)
  }

  /** A heap with the largest size requested for each live block since it was allocated. */
  datatype State = State(h: Heap, most: map<int, int>)

  function Step(s: State, call: Call): State
    requires Inv(s.h) && Enabled(s.h, call)
  {
    match call
    case Alloc(size) =>
      var (g, p) := Malloc(s.h, Need(size));
      State(g, s.most[p := size])
    case Dealloc(p) => State(Released(s.h, p), s.most - {p})
    case Resize(p, size) =>
      var (g, q) := Realloc(s.h, p, Need(size));
      State(g, (s.most - {p})[q := Max(if p in s.most then s.most[p] else 0, size)])
  }

  /** Each live block has room for the largest size requested for it, and at most eight
      bytes more than that size needs. */
  ghost predicate Tight(s: State) {
    && (forall a :: a in s.most <==> Live(s.h.t, a))
    && (forall a :: a in s.most ==>
          Request(s.most[a]) && Need(s.most[a]) <= s.h.t.blocks[a].size <= Need(s.most[a]) + 8)
  }

  /** What a call asks of memory that ends at `limit`: only one that must extend the heap
      needs it to have room. */
  ghost predicate CallRoom(h: Heap, call: Call, limit: int)
    requires Inv(h) && Enabled(h, call)
  {
    match call
    case Alloc(size) => HasRoom(h, Need(size), limit)
    case Dealloc(p) => true
    case Resize(p, size) =>
      Need(size) <= h.t.blocks[p].size || CanGrow(h, p, Need(size)) || HasRoom(h, Need(size), limit)
  }

  /** The address that a call returns. */
  function Result(h: Heap, call: Call): int
    requires Inv(h) && Enabled(h, call)
  {
    match call
    case Alloc(size) => Malloc(h, Need(size)).1
    case Dealloc(p) => 0
    case Resize(p, size) => Realloc(h, p, Need(size)).1
  }

  /** How many bytes an operation may add to the heap. */
  function Growth(call: Call): (r: int)
    ensures r >= 0
  {
    match call
    case Alloc(size) => if Request(size) then Extension(Need(size)) else 0
    case Dealloc(p) => 0
    case Resize(p, size) => if Request(size) then Extension(Need(size)) else 0
  }

  lemma NeedMonotone(a: int, b: int)
    requires Request(a) && Request(b) && a <= b
    ensures Need(a) <= Need(b)
  {
    AlignedApartEight(Need(a), Need(b));
  }

  lemma AlignedApartEight(x: int, y: int)
    requires Aligned(x) && Aligned(y)
    ensures x <= y || x >= y + 8
  {
  }

  /** The blocks whose contents a call may change. */
  function Touched(call: Call): set<int> {
    match call
    case Alloc(size) => {}
    case Dealloc(p) => {p}
    case Resize(p, size) => {p}
  }

  /** The other live blocks stay as they are. */
  lemma StepLive(s: State, call: Call)
    requires Inv(s.h) && Enabled(s.h, call)
    ensures forall a :: Live(s.h.t, a) && a !in Touched(call) ==>
              Live(Step(s, call).h.t, a) && s.h.t.blocks[a] == Step(s, call).h.t.blocks[a]
  {
    match call
    case Alloc(size) => MallocInv(s.h, Need(size));
    case Dealloc(p) => ReleasedInv(s.h, p);
    case Resize(p, size) => ReallocInv(s.h, p, Need(size));
  }

  /** Every call keeps the invariant and the size bounds, never lowers the break, and
      raises it at most by one extension. */
  lemma StepKeeps(s: State, call: Call)
    requires Inv(s.h) && Enabled(s.h, call) && Tight(s)
    ensures var u := Step(s, call);
      Inv(u.h) && Tight(u) && u.h.t.lo == s.h.t.lo && s.h.t.hi <= u.h.t.hi <= s.h.t.hi + Growth(call)
  {
    hide Inv, Malloc, Released, Need, Fit;
    match call
    case Alloc(size) => MallocInv(s.h, Need(size));
    case Dealloc(p) => ReleasedInv(s.h, p);
    case Resize(p, size) =>
      ReallocInv(s.h, p, Need(size));
      if s.most[p] <= size { NeedMonotone(s.most[p], size); } else { NeedMonotone(size, s.most[p]); }
  }

  ghost predicate RunOk(s: State, calls: seq<Call>)
    requires Inv(s.h) && Tight(s)
    decreases calls
  {
    calls == [] ||
    (Enabled(s.h, calls[0]) && (StepKeeps(s, calls[0]); RunOk(Step(s, calls[0]), calls[1..])))
  }

  ghost function Run(s: State, calls: seq<Call>): State
    requires Inv(s.h) && Tight(s) && RunOk(s, calls)
    decreases calls
  {
    if calls == [] then s else
    StepKeeps(s, calls[0]);
    Run(Step(s, calls[0]), calls[1..])
  }

  /** Every call of a run finds the room that it needs by then. */
  ghost predicate RunRoom(s: State, calls: seq<Call>, limit: int)
    requires Inv(s.h) && Tight(s) && RunOk(s, calls)
    decreases calls
  {
    calls == [] ||
    (StepKeeps(s, calls[0]);
     CallRoom(s.h, calls[0], limit) && RunRoom(Step(s, calls[0]), calls[1..], limit))
  }

  /** A call stays within the limit if and only if it has the room it needs. */
  lemma RoomIsExact(s: State, call: Call, limit: int)
    requires Inv(s.h) && Enabled(s.h, call) && s.h.t.hi <= limit
    ensures CallRoom(s.h, call, limit) <==> Step(s, call).h.t.hi <= limit
  {
    match call
    case Alloc(size) => MallocInv(s.h, Need(size));
    case Dealloc(p) => ReleasedInv(s.h, p);
    case Resize(p, size) => ResizeLimit(s.h, p, Need(size), limit);
  }

  lemma ResizeLimit(h: Heap, p: int, n: int, limit: int)
    requires Inv(h) && IsBlockSize(n) && Live(h.t, p) && h.t.hi <= limit
    ensures n <= h.t.blocks[p].size || CanGrow(h, p, n) || HasRoom(h, n, limit) <==> Realloc(h, p, n).0.t.hi <= limit
  {
    if n <= h.t.blocks[p].size {
    } else if CanGrow(h, p, n) {
      JoinedReady(h, p, n);
    } else {
      MallocInv(h, n);
      ReleasedInv(Malloc(h, n).0, p);
    }
  }

  function TotalGrowth(calls: seq<Call>): int {
    if calls == [] then 0 else Growth(calls[0]) + TotalGrowth(calls[1..])
  }

  /** Over every run of calls: the full invariant, the bounds on every live block, a break
      that never falls, and at most one extension per call that asks for memory. */
  lemma {:induction false} RunKeeps(s: State, calls: seq<Call>)
    requires Inv(s.h) && Tight(s) && RunOk(s, calls)
    ensures var u := Run(s, calls);
      Inv(u.h) && Tight(u) && u.h.t.lo == s.h.t.lo && s.h.t.hi <= u.h.t.hi <= s.h.t.hi + TotalGrowth(calls)
    decreases calls
  {
    if calls == [] {
    } else {
      StepKeeps(s, calls[0]);
      RunKeeps(Step(s, calls[0]), calls[1..]);
    }
  }

  /** A run has room if and only if the heap it ends with does not pass the limit. */
  lemma {:induction false} RunRoomIsExact(s: State, calls: seq<Call>, limit: int)
    requires Inv(s.h) && Tight(s) && RunOk(s, calls) && s.h.t.hi <= limit
    ensures RunRoom(s, calls, limit) <==> Run(s, calls).h.t.hi <= limit
    decreases calls
  {
    if calls == [] {
    } else {
      StepKeeps(s, calls[0]);
      RoomIsExact(s, calls[0], limit);
      var u := Step(s, calls[0]);
      RunKeeps(u, calls[1..]);
      if u.h.t.hi <= limit { RunRoomIsExact(u, calls[1..], limit); }
    }
  }

  /** Room for one extension per request is more than enough for a run. */
  lemma BoundIsRoom(s: State, calls: seq<Call>, limit: int)
    requires Inv(s.h) && Tight(s) && RunOk(s, calls) && s.h.t.hi + TotalGrowth(calls) <= limit
    ensures RunRoom(s, calls, limit)
  {
    GrowthLeft(calls);
    RunKeeps(s, calls);
    RunRoomIsExact(s, calls, limit);
  }

  lemma {:induction false} GrowthLeft(calls: seq<Call>)
    ensures TotalGrowth(calls) >= 0
  {
    if calls == [] {
    } else {
      GrowthLeft(calls[1..]);
    }
  }

  /** The state just after `mm_init`. */
  function Fresh(lo: int): (s: State)
    requires lo > 0 && Aligned(lo)
    ensures Inv(s.h) && Tight(s)
  {
    InitialInv(lo);
    State(Initial(lo), map[])
  }

  /** From `mm_init` on, the heap never takes more than 4112 bytes plus one extension for
      each `mm_malloc` or `mm_realloc`. */
  lemma HeapSizeBound(lo: int, calls: seq<Call>)
    requires lo > 0 && Aligned(lo) && RunOk(Fresh(lo), calls)
    ensures Run(Fresh(lo), calls).h.t.hi - (lo - 8) <= 4112 + TotalGrowth(calls)
  {
    RunKeeps(Fresh(lo), calls);
  }

  /** After any run that leaves nothing live, the heap is one free block. */
  lemma AllFreed(s: State, calls: seq<Call>)
    requires Inv(s.h) && Tight(s) && RunOk(s, calls) && s.h.t.hi > s.h.t.lo + 8
    requires forall a :: !Live(Run(s, calls).h.t, a)
    ensures var u := Run(s, calls).h; var lo := s.h.t.lo; var heapSize := u.t.hi - (lo - 8);
      u.t.blocks == map[lo := Block(8, true), lo + 8 := Block(heapSize - 16, false)] && u.list == [lo + 8]
  {
    RunKeeps(s, calls);
    var u := Run(s, calls).h;
    NothingLive(u, u.t.hi - (u.t.lo - 8));
  }

  /** A fresh `mm_malloc(size)` uses at most `size + 23` bytes of the heap. */
  lemma FreshBlockSize(h: Heap, size: int)
    requires Inv(h) && Request(size)
    ensures var (g, p) := Malloc(h, Need(size)); p in g.t.blocks && size + 8 <= g.t.blocks[p].size <= size + 23
  {
    MallocInv(h, Need(size));
  }

  lemma RunCons(s: State, call: Call, rest: seq<Call>)
    requires Inv(s.h) && Tight(s) && Enabled(s.h, call)
    requires Inv(Step(s, call).h) && Tight(Step(s, call)) && RunOk(Step(s, call), rest)
    ensures RunOk(s, [call] + rest) && Run(s, [call] + rest) == Run(Step(s, call), rest)
  {
    hide Step, Inv, Tight;
    assert ([call] + rest)[1..] == rest;
  }

  /** Allocating and freeing one byte, `k` times. */
  function Loop(lo: int, k: nat): seq<Call> {
    if k == 0 then [] else [Alloc(1)] + ([Dealloc(lo + 8)] + Loop(lo, k - 1))
  }

  lemma LoopOnce(lo: int)
    requires lo > 0 && Aligned(lo)
    ensures Enabled(Fresh(lo).h, Alloc(1)) && Fresh(lo).h.t.hi == lo + 8 + CHUNK_SIZE
    ensures var s := Step(Fresh(lo), Alloc(1));
      Inv(s.h) && Tight(s) && Enabled(s.h, Dealloc(lo + 8)) && Step(s, Dealloc(lo + 8)) == Fresh(lo)
  {
    var h := Fresh(lo).h;
    InitialInv(lo);
    assert 16 == Eight(2);
    NeedOf(1, 16);
    assert Fit(h, 16) == Some(lo + 8);
    StepKeeps(Fresh(lo), Alloc(1));
    MallocThenFree(h, 16);
    assert Without([lo + 8], {lo + 8}) == [];
    var s := Step(Fresh(lo), Alloc(1));
    assert s.most - {lo + 8} == map[];
  }

  lemma LoopCons(lo: int, rest: seq<Call>)
    requires lo > 0 && Aligned(lo) && RunOk(Fresh(lo), rest)
    ensures RunOk(Fresh(lo), [Alloc(1)] + ([Dealloc(lo + 8)] + rest))
    ensures Run(Fresh(lo), [Alloc(1)] + ([Dealloc(lo + 8)] + rest)) == Run(Fresh(lo), rest)
  {
    hide Fresh, Step, Run, RunOk, Inv, Tight, Enabled;
    var s := Fresh(lo);
    LoopOnce(lo);
    RunCons(Step(s, Alloc(1)), Dealloc(lo + 8), rest);
    RunCons(s, Alloc(1), [Dealloc(lo + 8)] + rest);
  }

  lemma EmptyRun(s: State)
    requires Inv(s.h) && Tight(s)
    ensures RunOk(s, []) && Run(s, []) == s
  {
  }

  lemma {:induction false} LoopReturns(lo: int, k: nat)
    requires lo > 0 && Aligned(lo)
    ensures RunOk(Fresh(lo), Loop(lo, k)) && Run(Fresh(lo), Loop(lo, k)) == Fresh(lo)
  {
    hide Fresh, Run, RunOk, Inv, Tight;
    if k == 0 {
      EmptyRun(Fresh(lo));
    } else {
      LoopReturns(lo, k - 1);
      LoopCons(lo, Loop(lo, k - 1));
    }
  }

  /** However often it is repeated, it needs no more room than `mm_init` took. */
  lemma LoopHasRoom(lo: int, k: nat)
    requires lo > 0 && Aligned(lo)
    ensures RunOk(Fresh(lo), Loop(lo, k)) && RunRoom(Fresh(lo), Loop(lo, k), lo + 8 + CHUNK_SIZE)
  {
    LoopReturns(lo, k);
    RunRoomIsExact(Fresh(lo), Loop(lo, k), lo + 8 + CHUNK_SIZE);
  }

  /** An exact fit with the block above: one byte grown to 4088 in a fresh heap, which takes
      the whole heap, keeps its address. */
  lemma ExactFitStays(lo: int)
    requires lo > 0 && Aligned(lo)
    ensures Enabled(Fresh(lo).h, Alloc(1)) && Result(Fresh(lo).h, Alloc(1)) == lo + 8
    ensures var s := Step(Fresh(lo), Alloc(1));
      && Inv(s.h) && Enabled(s.h, Resize(lo + 8, 4088)) && Result(s.h, Resize(lo + 8, 4088)) == lo + 8
      && Step(s, Resize(lo + 8, 4088)).h.t.hi == Fresh(lo).h.t.hi
  {
    var h := Fresh(lo).h;
    InitialInv(lo);
    assert 16 == Eight(2) && 4096 == Eight(512);
    NeedOf(1, 16);
    NeedOf(4088, 4096);
    assert Fit(h, 16) == Some(lo + 8);
    MallocInv(h, 16);
    MallocEffect(h, 16);
    ReallocStays(Malloc(h, 16).0, lo + 8, 4096);
  }

  // ---------- a list head that the next mm_init cannot take ----------

  lemma NeedOf(size: int, n: int)
    requires Request(size) && Aligned(n) && size + 8 <= n < size + 16
    ensures Need(size) == n
  {
    AlignedApartEight(Need(size), n);
    AlignedApartEight(n, Need(size));
  }

  /** One allocation larger than the heap starts where the heap's only block does. */
  lemma GrowFirst(lo: int)
    requires lo > 0 && Aligned(lo)
    ensures var s := Fresh(lo);
      && Enabled(s.h, Alloc(8192)) && Need(8192) == 8200 && Malloc(s.h, 8200).1 == lo + 8
      && Malloc(s.h, 8200).0.t.hi == lo + 8 + CHUNK_SIZE + 8200
  {
    var h := Fresh(lo).h;
    InitialInv(lo);
    assert 8200 == Eight(1025);
    NeedOf(8192, 8200);
    MallocInv(h, 8200);
    assert Fit(h, 8200) == None;
    MallocGrows(h, 8200);
    assert Next(h.t, lo + 8) == h.t.hi;
    PrevUnique(h.t, lo + 8, h.t.hi);
  }

  /** Freed again, it leaves one block of 12296 bytes. */
  lemma GrowThenFree(lo: int)
    requires lo > 0 && Aligned(lo)
    ensures Enabled(Fresh(lo).h, Alloc(8192))
    ensures var s := Step(Fresh(lo), Alloc(8192));
      && Inv(s.h) && Tight(s) && Enabled(s.h, Dealloc(lo + 8))
      && var u := Step(s, Dealloc(lo + 8));
         Inv(u.h) && Tight(u) && u.h.list == [lo + 8] && u.h.t.lo == lo && Free(u.h.t, lo + 8)
         && u.h.t.blocks[lo + 8].size == 12296
  {
    var s := Fresh(lo);
    GrowFirst(lo);
    InitialInv(lo);
    MallocInv(s.h, 8200);
    StepKeeps(s, Alloc(8192));
    var t := Step(s, Alloc(8192));
    StepKeeps(t, Dealloc(lo + 8));
    ReleasedInv(t.h, lo + 8);
    var u := Released(t.h, lo + 8);
    forall a ensures !Live(u.t, a) { assert !Live(s.h.t, a); }
    NothingLive(u, u.t.hi - (lo - 8));
  }

  /** Three calls that end with the list head from which `mm_init` fails. */
  function BadRun(lo: int): seq<Call> { [Alloc(8192), Dealloc(lo + 8), Alloc(4080)] }

  lemma BadHeadReachable(lo: int)
    requires lo > 0 && Aligned(lo)
    ensures RunOk(Fresh(lo), BadRun(lo)) && 4112 + TotalGrowth(BadRun(lo)) <= 16408
    ensures var u := Run(Fresh(lo), BadRun(lo)).h; u.list == [lo + CHUNK_SIZE] && !StaleHeadOk(lo, u.list[0])
  {
    hide Step, Inv, Tight, Malloc, Released;
    var s, calls := Fresh(lo), BadRun(lo);
    GrowFirst(lo);
    GrowThenFree(lo);
    var s1 := Step(s, Alloc(8192));
    var s2 := Step(s1, Dealloc(lo + 8));
    LastCall(s2, lo);
    var s3 := Step(s2, Alloc(4080));
    assert calls[1..] == [Dealloc(lo + 8), Alloc(4080)];
    assert calls[1..][1..] == [Alloc(4080)] && calls[1..][1..][1..] == [];
    assert RunOk(s3, []) && Run(s3, []) == s3;
    assert RunOk(s2, [Alloc(4080)]) && Run(s2, [Alloc(4080)]) == s3;
    assert RunOk(s1, calls[1..]) && Run(s1, calls[1..]) == s3;
    assert TotalGrowth([Alloc(4080)]) == CHUNK_SIZE;
    assert TotalGrowth(calls[1..]) == CHUNK_SIZE;
  }

  /** A block of 4088 bytes carved from the start puts the rest at the bad address. */
  lemma LastCall(s: State, lo: int)
    requires Inv(s.h) && Tight(s) && s.h.list == [lo + 8] && s.h.t.lo == lo > 0 && Free(s.h.t, lo + 8)
    requires s.h.t.blocks[lo + 8].size == 12296
    ensures Enabled(s.h, Alloc(4080)) && Growth(Alloc(4080)) == CHUNK_SIZE
    ensures var u := Step(s, Alloc(4080)); Inv(u.h) && Tight(u) && u.h.list == [lo + CHUNK_SIZE]
  {
    assert 4088 == Eight(511);
    NeedOf(4080, 4088);
    StepKeeps(s, Alloc(4080));
    assert Fit(s.h, 4088) == Some(lo + 8);
    assert Without([lo + 8], {lo + 8}) == [];
  }
}
