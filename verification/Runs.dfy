/** Runs of calls on the allocator's memory: what is proved of runs of the abstract allocator
    holds of the words, the break and the list head of the real one. */
module Runs {

  import opened Bits
  import opened Tiles
  import opened HeapTheorems
  import opened MemLib
  import opened Layout
  import opened MM
  import opened Reinit
  import H = HeapModel

  /** The blocks whose contents a run may change. */
  function AllTouched(calls: seq<Call>): set<int> {
    if calls == [] then {} else Touched(calls[0]) + AllTouched(calls[1..])
  }

  lemma PayloadsKeptThen(m0: seq<Byte>, m1: seq<Byte>, m2: seq<Byte>, start: int, t: Tiles, u: Tiles,
                         first: set<int>, rest: set<int>)
    requires PayloadsKept(m0, m1, start, t, first) && PayloadsKept(m1, m2, start, u, rest)
    requires forall b :: Live(t, b) && b !in first ==> Live(u, b) && t.blocks[b] == u.blocks[b]
    ensures PayloadsKept(m0, m2, start, t, first + rest)
  {
    forall b | Live(t, b) && b !in first + rest ensures Payload(m0, start, t, b) == Payload(m2, start, t, b) {
      assert Payload(m0, start, t, b) == Payload(m1, start, t, b);
      assert Payload(m1, start, u, b) == Payload(m2, start, u, b);
    }
  }

  /** One call. */
  method RunCall(a: Allocator, call: Call, ghost s: State)
    requires a.Valid() && a.heap == s.h && Enabled(s.h, call) && CallRoom(s.h, call, a.m.start + MAX_HEAP)
    modifies a, a.m, a.m.bytes
    ensures a.Valid() && a.heap == Step(s, call).h
    ensures PayloadsKept(old(a.m.bytes[..]), a.m.bytes[..], a.m.start, s.h.t, Touched(call))
  {
    match call {
      case Alloc(size) =>
        var p := a.MmMalloc(size);
      case Dealloc(p) =>
        BlockWords(a.m, a.heap.t, p);
        a.MmFree(p);
      case Resize(p, size) =>
        BlockWords(a.m, a.heap.t, p);
        var q := a.MmRealloc(p, size);
    }
  }

  /** Any run of calls that each find the room they need takes memory where the abstract
      allocator goes, and changes no byte of a live block that it neither frees nor resizes. */
  method RunCalls(a: Allocator, calls: seq<Call>, ghost s: State)
    requires a.Valid() && a.heap == s.h && Tight(s) && RunOk(s, calls)
    requires RunRoom(s, calls, a.m.start + MAX_HEAP)
    modifies a, a.m, a.m.bytes
    ensures a.Valid() && a.heap == Run(s, calls).h
    ensures PayloadsKept(old(a.m.bytes[..]), a.m.bytes[..], a.m.start, s.h.t, AllTouched(calls))
    decreases |calls|
  {
    if calls == [] { return; }
    ghost var m0 := a.m.bytes[..];
    StepKeeps(s, calls[0]);
    StepLive(s, calls[0]);
    RunCall(a, calls[0], s);
    ghost var m1, u := a.m.bytes[..], Step(s, calls[0]);
    RunCalls(a, calls[1..], u);
    PayloadsKeptThen(m0, m1, a.m.bytes[..], a.m.start, s.h.t, u.h.t, Touched(calls[0]), AllTouched(calls[1..]));
  }

  /** The abstract heap that `mm_init` sets up in this arena. */
  ghost function FreshOf(a: Allocator): (s: State)
    requires a.m.Valid()
    reads a.m, a.m.bytes
    ensures H.Inv(s.h) && Tight(s)
  {
    SmallMultiples();
    AlignedSum(a.m.start, 8);
    Fresh(a.m.start + 8)
  }

  lemma FreedHeap(a: Allocator)
    requires a.Valid() && a.m.brk > a.m.start + 16 && (forall b :: !Live(a.heap.t, b))
    ensures var lo, heapSize := a.m.start + 8, a.m.brk - a.m.start;
      && a.heap.t.blocks == map[lo := Block(8, true), lo + 8 := Block(heapSize - 16, false)]
      && a.heap.list == [lo + 8]
  {
    NothingLive(a.heap, a.m.brk - a.m.start);
  }

  /** Any run from `mm_init` on: memory represents the abstract heap, every live block has room
      for the largest size asked of it and at most eight bytes more, the break is bounded, and
      once everything is freed the heap is one free block. */
  method RunFromInit(a: Allocator, calls: seq<Call>)
    requires a.m.Valid() && LeftOver(a.m.start, a.freeList) && a.freeList != BadHead(a.m.start)
    requires RunOk(FreshOf(a), calls) && RunRoom(FreshOf(a), calls, a.m.start + MAX_HEAP)
    modifies a, a.m, a.m.bytes
    ensures a.Valid() && a.heap == Run(FreshOf(a), calls).h && Tight(Run(FreshOf(a), calls))
    ensures 4112 <= a.m.brk - a.m.start <= 4112 + TotalGrowth(calls)
    ensures (forall b :: !Live(a.heap.t, b)) ==>
              var lo, heapSize := a.m.start + 8, a.m.brk - a.m.start;
              && a.heap.t.blocks == map[lo := Block(8, true), lo + 8 := Block(heapSize - 16, false)]
              && a.heap.list == [lo + 8]
  {
    hide Run, RunOk, RunRoom, Tight, H.Inv, TotalGrowth, Done, RawInit;
    ghost var s := FreshOf(a);
    a.m.ResetBrk();
    var done := InitAgain(a);
    RunCalls(a, calls, s);
    RunKeeps(s, calls);
    if forall b :: !Live(a.heap.t, b) { FreedHeap(a); }
  }

  /** Three calls after a first `mm_init` leave the bad list head. */
  method ReachBadHead(a: Allocator)
    requires a.m.Valid() && a.freeList == 0
    modifies a, a.m, a.m.bytes
    ensures a.Valid() && a.freeList == BadHead(a.m.start)
  {
    SmallMultiples();
    AlignedSum(a.m.start, 8);
    BadHeadReachable(a.m.start + 8);
    BoundIsRoom(FreshOf(a), BadRun(a.m.start + 8), a.m.start + MAX_HEAP);
    RunFromInit(a, BadRun(a.m.start + 8));
    HeadIs(a.m.words, a.freeList, a.heap);
  }

  /** So a second trace in the same process can begin with an `mm_init` that ends in a stray
      access or without its epilogue header. */
  method SecondInitFails(a: Allocator) returns (done: bool)
    requires a.m.Valid() && a.freeList == 0
    modifies a, a.m, a.m.bytes
    ensures a.m.Valid() && !(done && a.Valid()) && !(done && At(a.m.words, a.m.brk - 4) == 1)
  {
    ReachBadHead(a);
    done := StartNext(a);
  }
}
