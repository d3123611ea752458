/** The malloc driver's two trace interpreters, run against the allocator. */
module Driver {

  import opened Bits
  import opened Common
  import opened Tiles
  import opened FreeList
  import H = HeapModel
  import opened MemLib
  import opened Layout
  import opened MM
  import opened Ranges
  import opened Reinit
  import opened TraceRuns
  import HT = HeapTheorems
  import T = Traces

  /** `trace_t`: the requests, and what the interpreter remembers for each id. */
  class Trace {
    const ops: seq<T.TraceOp>
    const numIds: nat
    const blocks: array<int>
    const blockSizes: array<int>

    constructor (requests: seq<T.TraceOp>, ids: nat)
      ensures ops == requests && numIds == ids && Ready() && fresh(blocks) && fresh(blockSizes)
    {
      ops, numIds := requests, ids;
      blocks := new int[ids](_ => 0);
      blockSizes := new int[ids](_ => 0);
    }

    ghost predicate Ready() {
      blocks.Length == blockSizes.Length == numIds && blocks != blockSizes
    }
  }

  // ---------- what the interpreter keeps true ----------

  type LiveSizes = map<int, int>

  ghost predicate Slot(t: Tiles, blocks: seq<int>, sizes: seq<int>, live: LiveSizes, id: int)
    requires id in live
  {
    && 0 <= id < |blocks| == |sizes| && 0 < live[id] && sizes[id] == live[id]
    && Live(t, blocks[id]) && live[id] <= t.blocks[blocks[id]].size - 8
  }

  /** Every live id has a live block of its own, large enough for its size. */
  ghost predicate Tracked(t: Tiles, blocks: seq<int>, sizes: seq<int>, live: LiveSizes) {
    && |blocks| == |sizes|
    && (forall id {:trigger Slot(t, blocks, sizes, live, id)} :: id in live ==> Slot(t, blocks, sizes, live, id))
    && (forall id, id' :: id in live && id' in live && id != id' ==>
          0 <= id < |blocks| && 0 <= id' < |blocks| && blocks[id] != blocks[id'])
  }

  lemma SlotOf(t: Tiles, blocks: seq<int>, sizes: seq<int>, live: LiveSizes, id: int)
    requires Tracked(t, blocks, sizes, live) && id in live
    ensures Slot(t, blocks, sizes, live, id)
  {
  }

  /** The interpreter moved `id` to block `q`. */
  lemma TrackPut(t: Tiles, u: Tiles, blocks: seq<int>, sizes: seq<int>, live: LiveSizes,
                 id: int, q: int, size: int, touched: set<int>)
    requires Tracked(t, blocks, sizes, live) && H.SameLive(t, u, touched) && 0 <= id < |blocks|
    requires forall j :: j in live && j != id ==> 0 <= j < |blocks| && blocks[j] !in touched && blocks[j] != q
    requires Live(u, q) && 0 < size <= u.blocks[q].size - 8
    ensures Tracked(u, blocks[id := q], sizes[id := size], live[id := size])
  {
    var b, s, l := blocks[id := q], sizes[id := size], live[id := size];
    forall j | j in l ensures Slot(u, b, s, l, j) {
      if j != id { assert Slot(t, blocks, sizes, live, j); }
    }
  }

  lemma TrackDrop(t: Tiles, u: Tiles, blocks: seq<int>, sizes: seq<int>, live: LiveSizes, id: int)
    requires Tracked(t, blocks, sizes, live) && id in live
    requires Slot(t, blocks, sizes, live, id) && H.SameLive(t, u, {blocks[id]})
    ensures Tracked(u, blocks, sizes, live - {id})
  {
    forall j | j in live - {id} ensures Slot(u, blocks, sizes, live - {id}, j) {
      assert Slot(t, blocks, sizes, live, j);
    }
  }

  /** The payload of each live id holds the low byte of the id. */
  ghost predicate Filled(m: seq<Byte>, start: int, blocks: seq<int>, live: LiveSizes) {
    forall id {:trigger IdFilled(m, start, blocks, live, id)} :: id in live ==> IdFilled(m, start, blocks, live, id)
  }

  ghost predicate IdFilled(m: seq<Byte>, start: int, blocks: seq<int>, live: LiveSizes, id: int)
    requires id in live
  {
    && 0 <= id < |blocks| && start <= blocks[id] && blocks[id] + live[id] <= start + |m| && live[id] >= 0
    && (forall i :: blocks[id] - start <= i < blocks[id] - start + live[id] ==> m[i] == id % 256)
  }

  // ---------- memory written by the driver ----------

  lemma IdPayloadKept(m: seq<Byte>, m': seq<Byte>, start: int, t: Tiles, touched: set<int>,
                      blocks: seq<int>, sizes: seq<int>, live: LiveSizes, id: int)
    requires Tracked(t, blocks, sizes, live) && Tiling(t) && start <= t.lo && t.hi <= start + |m| && |m| == |m'|
    requires PayloadsKept(m, m', start, t, touched)
    requires id in live && IdFilled(m, start, blocks, live, id) && blocks[id] !in touched
    ensures IdFilled(m', start, blocks, live, id)
  {
    assert Slot(t, blocks, sizes, live, id);
    var b := blocks[id];
    assert Placed(t, b);
    assert Payload(m, start, t, b) == Payload(m', start, t, b);
    forall i | b - start <= i < b - start + live[id] ensures m'[i] == m[i] {
      assert Payload(m, start, t, b)[i - (b - start)] == m[i] && Payload(m', start, t, b)[i - (b - start)] == m'[i];
    }
  }

  /** A payload is filled for `id` and nothing else in a live payload changes. */
  lemma FilledPut(m: seq<Byte>, m1: seq<Byte>, m2: seq<Byte>, start: int, t: Tiles, u: Tiles, touched: set<int>,
                  blocks: seq<int>, sizes: seq<int>, live: LiveSizes, id: int, q: int, size: int)
    requires Tracked(t, blocks, sizes, live) && Tiling(t) && start <= t.lo && t.hi <= start + |m|
    requires Tiling(u) && start <= u.lo && u.hi <= start + |m| && |m| == |m1| == |m2| && H.SameLive(t, u, touched)
    requires Filled(m, start, blocks, live) && PayloadsKept(m, m1, start, t, touched)
    requires forall j :: j in live && j != id ==> 0 <= j < |blocks| && blocks[j] !in touched && blocks[j] != q
    requires 0 <= id < |blocks| && Live(u, q) && 0 < size <= u.blocks[q].size - 8
    requires forall i :: 0 <= i < |m| ==> m2[i] == if q - start <= i < q - start + size then id % 256 else m1[i]
    ensures Filled(m2, start, blocks[id := q], live[id := size])
  {
    assert Placed(u, q);
    var b, l := blocks[id := q], live[id := size];
    forall j | j in l ensures IdFilled(m2, start, b, l, j) {
      if j != id {
        assert IdFilled(m, start, blocks, live, j);
        IdPayloadKept(m, m1, start, t, touched, blocks, sizes, live, j);
        assert Slot(t, blocks, sizes, live, j);
        assert Live(t, blocks[j]) && Live(u, blocks[j]) && u.blocks[blocks[j]] == t.blocks[blocks[j]];
      }
    }
  }

  lemma FilledDrop(m: seq<Byte>, m1: seq<Byte>, start: int, t: Tiles, u: Tiles,
                   blocks: seq<int>, sizes: seq<int>, live: LiveSizes, id: int)
    requires Tracked(t, blocks, sizes, live) && Tiling(t) && start <= t.lo && t.hi <= start + |m| && |m| == |m1|
    requires id in live && Slot(t, blocks, sizes, live, id) && H.SameLive(t, u, {blocks[id]})
    requires Filled(m, start, blocks, live) && PayloadsKept(m, m1, start, t, {blocks[id]})
    ensures Filled(m1, start, blocks, live - {id})
  {
    forall j | j in live - {id} ensures IdFilled(m1, start, blocks, live - {id}, j) {
      assert IdFilled(m, start, blocks, live, j);
      IdPayloadKept(m, m1, start, t, {blocks[id]}, blocks, sizes, live, j);
    }
  }

  // ---------- the range list ----------

  ghost predicate RangeOf(r: Range, id: int, blocks: seq<int>, live: LiveSizes) {
    id in live && 0 <= id < |blocks| && r == Range(blocks[id], blocks[id] + live[id] - 1)
  }

  /** The range list holds the payload extents of the live ids, in the given order. */
  ghost predicate RangesMatch(ranges: seq<Range>, order: seq<int>, blocks: seq<int>, live: LiveSizes) {
    && |ranges| == |order| && Distinct(order) && (forall id :: id in live ==> id in order)
    && (forall k :: 0 <= k < |order| ==> RangeOf(ranges[k], order[k], blocks, live))
  }

  lemma RangesPut(ranges: seq<Range>, order: seq<int>, blocks: seq<int>, live: LiveSizes, id: int, q: int, size: int)
    requires RangesMatch(ranges, order, blocks, live) && id !in live && 0 <= id < |blocks|
    ensures RangesMatch([Range(q, q + size - 1)] + ranges, [id] + order, blocks[id := q], live[id := size])
  {
    var r, o := [Range(q, q + size - 1)] + ranges, [id] + order;
    forall k | 0 <= k < |order| ensures order[k] != id {
      assert RangeOf(ranges[k], order[k], blocks, live);
    }
    PushDistinct(order, id);
    forall k | 0 <= k < |o| ensures RangeOf(r[k], o[k], blocks[id := q], live[id := size]) {
      if k > 0 {
        assert RangeOf(ranges[k-1], order[k-1], blocks, live);
        assert order[k-1] in order;
      }
    }
    forall j | j in live[id := size] ensures j in o {
      if j != id { assert j in order; }
    }
  }

  lemma RangesDrop(ranges: seq<Range>, order: seq<int>, t: Tiles, blocks: seq<int>, sizes: seq<int>,
                   live: LiveSizes, id: int)
    requires RangesMatch(ranges, order, blocks, live) && id in live && Tracked(t, blocks, sizes, live)
    requires 0 <= id < |blocks|
    ensures RangesMatch(RemoveFirst(ranges, blocks[id]), Without(order, {id}), blocks, live - {id})
  {
    var k :| 0 <= k < |order| && order[k] == id;
    assert RangeOf(ranges[k], order[k], blocks, live);
    forall i | 0 <= i < k ensures ranges[i].lo != blocks[id] {
      assert RangeOf(ranges[i], order[i], blocks, live) && order[i] != order[k];
    }
    RemoveFirstAt(ranges, blocks[id], k);
    WithoutIndex(order, k);
    WithoutDistinct(order, {id});
    RangesCut(ranges, order, blocks, live, k);
  }

  lemma RangesCut(ranges: seq<Range>, order: seq<int>, blocks: seq<int>, live: LiveSizes, k: nat)
    requires RangesMatch(ranges, order, blocks, live) && k < |order|
    ensures var r, o := ranges[..k] + ranges[k+1..], order[..k] + order[k+1..];
      |r| == |o| && forall i :: 0 <= i < |o| ==> RangeOf(r[i], o[i], blocks, live - {order[k]})
  {
    var r, o := ranges[..k] + ranges[k+1..], order[..k] + order[k+1..];
    forall i | 0 <= i < |o| ensures RangeOf(r[i], o[i], blocks, live - {order[k]}) {
      var j := if i < k then i else i + 1;
      assert RangeOf(ranges[j], order[j], blocks, live) && order[j] != order[k];
    }
  }

  /** The payload of a new block passes every test of `add_range`. */
  lemma PayloadAccepted(ranges: seq<Range>, order: seq<int>, t: Tiles, blocks: seq<int>, sizes: seq<int>,
                        live: LiveSizes, start: int, q: int, size: int)
    requires RangesMatch(ranges, order, blocks, live) && Tracked(t, blocks, sizes, live) && Tiling(t)
    requires start + 8 == t.lo && Live(t, q) && 0 < size <= t.blocks[q].size - 8
    requires forall j :: j in live ==> 0 <= j < |blocks| && blocks[j] != q
    ensures Acceptable(start, t.hi, ranges, q, q + size - 1)
  {
    assert Placed(t, q);
    forall k | 0 <= k < |ranges| ensures !EndpointInside(q, q + size - 1, ranges[k]) {
      var id := order[k];
      assert RangeOf(ranges[k], id, blocks, live) && Slot(t, blocks, sizes, live, id);
      assert Live(t, blocks[id]) && Placed(t, blocks[id]);
    }
  }

  // ---------- the allocator's calls, as the driver sees them ----------

  /** `mm_malloc` of this size can be served. */
  ghost predicate AllocRoom(a: Allocator, size: int)
    reads a, a.m, a.m.bytes
  {
    a.Valid() && H.Request(size) && a.Room(H.Need(size))
  }

  /** `mm_realloc` of live block `p` to this size can be served. */
  ghost predicate ReallocRoom(a: Allocator, p: int, size: int)
    reads a, a.m, a.m.bytes
  {
    && a.Valid() && H.Request(size) && Live(a.heap.t, p)
    && (a.MustMove(p, H.Need(size)) ==> a.Room(H.Need(size)))
  }

  method Malloc(a: Allocator, size: int) returns (p: int)
    requires AllocRoom(a, size)
    modifies a, a.m, a.m.bytes
    ensures a.Valid() && (a.heap, p) == H.Malloc(old(a.heap), H.Need(size))
    ensures p != 0 && !Live(old(a.heap.t), p) && Live(a.heap.t, p) && size <= a.heap.t.blocks[p].size - 8
    ensures H.SameLive(old(a.heap.t), a.heap.t, {p})
    ensures PayloadsKept(old(a.m.bytes[..]), a.m.bytes[..], a.m.start, old(a.heap.t), {})
    ensures old(a.m.brk) <= a.m.brk
  {
    H.MallocInv(a.heap, H.Need(size));
    p := a.MmMalloc(size);
    assert Placed(a.heap.t, p);
  }

  method Realloc(a: Allocator, p: int, size: int) returns (q: int)
    requires ReallocRoom(a, p, size)
    modifies a, a.m, a.m.bytes
    ensures a.Valid() && (a.heap, q) == H.Realloc(old(a.heap), p, H.Need(size))
    ensures q != 0 && (q == p || !Live(old(a.heap.t), q))
    ensures Live(a.heap.t, q) && size <= a.heap.t.blocks[q].size - 8
    ensures H.SameLive(old(a.heap.t), a.heap.t, {p, q})
    ensures PayloadsKept(old(a.m.bytes[..]), a.m.bytes[..], a.m.start, old(a.heap.t), {p})
    ensures Copied(old(a.m.bytes[..]), a.m.bytes[..], a.m.start, p, q, Min(old(a.heap.t.blocks[p].size) - 8, size))
    ensures old(a.m.brk) <= a.m.brk
  {
    ghost var m0, k := a.m.bytes[..], Min(a.heap.t.blocks[p].size - 8, size);
    ReallocFacts(a.heap, p, size);
    q := a.MmRealloc(p, size);
    assert Copied(m0, a.m.bytes[..], a.m.start, p, q, k);
  }

  /** `ReallocInv`, in the driver's terms. */
  lemma ReallocFacts(h: H.Heap, p: int, size: int)
    requires H.Inv(h) && Live(h.t, p) && H.Request(size)
    ensures p > 0
    ensures var (g, q) := H.Realloc(h, p, H.Need(size));
      && q > 0 && (q == p || !Live(h.t, q)) && Live(g.t, q) && size <= g.t.blocks[q].size - 8
      && H.SameLive(h.t, g.t, {p, q})
      && h.t.hi <= g.t.hi
  {
    H.ReallocInv(h, p, H.Need(size));
    var (g, q) := H.Realloc(h, p, H.Need(size));
    assert Placed(h.t, p) && Placed(g.t, q);
  }

  method Release(a: Allocator, p: int)
    requires a.Valid() && Live(a.heap.t, p)
    modifies a, a.m, a.m.bytes
    ensures a.Valid() && a.heap == H.Released(old(a.heap), p)
    ensures H.SameLive(old(a.heap.t), a.heap.t, {p}) && a.m.brk == old(a.m.brk)
    ensures PayloadsKept(old(a.m.bytes[..]), a.m.bytes[..], a.m.start, old(a.heap.t), {p})
  {
    H.ReleasedInv(a.heap, p);
    assert Placed(a.heap.t, p);
    a.MmFree(p);
  }

  /** `memset` of part of a live payload. */
  method Fill(a: Allocator, p: int, v: Byte, n: nat)
    requires a.Valid() && Live(a.heap.t, p) && n <= a.heap.t.blocks[p].size - 8
    modifies a.m, a.m.bytes
    ensures a.Valid() && a.m.brk == old(a.m.brk) && a.heap == old(a.heap)
    ensures forall i :: 0 <= i < a.m.bytes.Length ==>
              a.m.bytes[i] == if p - a.m.start <= i < p - a.m.start + n then v else old(a.m.bytes[i])
  {
    assert Placed(a.heap.t, p);
    a.m.Memset(p, v, n);
    PayloadRep(old(a.m.words), a.m.words, a.freeList, a.heap, p, n);
  }

  // ---------- eval_mm_valid ----------

  ghost predicate Interp(a: Allocator, trace: Trace, live: LiveSizes)
    reads a, a.m, a.m.bytes, trace.blocks, trace.blockSizes
  {
    a.Valid() && trace.Ready() && Tracked(a.heap.t, trace.blocks[..], trace.blockSizes[..], live)
  }

  /** Everything `eval_mm_valid` keeps true between requests. */
  ghost predicate Checked(a: Allocator, trace: Trace, ranges: RangeList, live: LiveSizes, order: seq<int>)
    reads a, a.m, a.m.bytes, trace.blocks, trace.blockSizes, ranges
  {
    && Interp(a, trace, live)
    && Filled(a.m.bytes[..], a.m.start, trace.blocks[..], live)
    && RangesMatch(ranges.ranges, order, trace.blocks[..], live)
  }

  method ValidAlloc(a: Allocator, trace: Trace, ranges: RangeList, index: int, size: int,
                    ghost live: LiveSizes, ghost order: seq<int>) returns (ok: int)
    requires Checked(a, trace, ranges, live, order)
    requires T.OpOk(live, trace.numIds, T.Alloc(index, size)) && AllocRoom(a, size)
    modifies a, a.m, a.m.bytes, trace.blocks, trace.blockSizes, ranges
    ensures ok == 1 && Checked(a, trace, ranges, live[index := size], [index] + order)
    ensures trace.blocks[..] == old(trace.blocks[..])[index := H.Malloc(old(a.heap), H.Need(size)).1]
    ensures a.heap == H.Malloc(old(a.heap), H.Need(size)).0
  {
    hide View, RepBut, Tiling, PayloadsKept, H.SameLive, Acceptable, RangesMatch, Tracked, Filled;
    ghost var t, m0, blocks, sizes := a.heap.t, a.m.bytes[..], trace.blocks[..], trace.blockSizes[..];
    var p := Malloc(a, size);
    if p == 0 { return 0; }
    ghost var u, m1 := a.heap.t, a.m.bytes[..];
    OthersApart(t, blocks, sizes, live, index, p);
    TrackPut(t, u, blocks, sizes, live, index, p, size, {p});
    AddAccepted(ranges.ranges, order, u, blocks, sizes, live, a.m.start, index, p, size);
    ok := ranges.Add(a.m, p, size);
    if ok == 0 { return 0; }
    Fill(a, p, index % 256, size);
    FilledPut(m0, m1, a.m.bytes[..], a.m.start, t, u, {p}, blocks, sizes, live, index, p, size);
    RangesPut(old(ranges.ranges), order, blocks, live, index, p, size);
    trace.blocks[index] := p;
    trace.blockSizes[index] := size;
  }

  /** A block that was not live is not that of any live id. */
  lemma OthersApart(t: Tiles, blocks: seq<int>, sizes: seq<int>, live: LiveSizes, id: int, q: int)
    requires Tracked(t, blocks, sizes, live)
    requires !Live(t, q) || (id in live && Slot(t, blocks, sizes, live, id) && blocks[id] == q)
    ensures forall j :: j in live && j != id ==> 0 <= j < |blocks| && blocks[j] != q
    ensures id in live ==> Slot(t, blocks, sizes, live, id)
  {
    forall j | j in live && j != id ensures 0 <= j < |blocks| && blocks[j] != q {
      assert Slot(t, blocks, sizes, live, j);
    }
    if id in live { assert Slot(t, blocks, sizes, live, id); }
  }

  lemma AddAccepted(ranges: seq<Range>, order: seq<int>, u: Tiles, blocks: seq<int>, sizes: seq<int>,
                    live: LiveSizes, start: int, id: int, q: int, size: int)
    requires RangesMatch(ranges, order, blocks, live) && id !in live && 0 <= id < |blocks|
    requires |blocks| == |sizes| && Tracked(u, blocks[id := q], sizes[id := size], live[id := size])
    requires Tiling(u) && start + 8 == u.lo && Live(u, q) && 0 < size <= u.blocks[q].size - 8
    ensures Acceptable(start, u.hi, ranges, q, q + size - 1)
  {
    hide Acceptable, Tiling;
    var b, s, l := blocks[id := q], sizes[id := size], live[id := size];
    forall k | 0 <= k < |order| ensures RangeOf(ranges[k], order[k], blocks, live) && order[k] != id {
      assert RangeOf(ranges[k], order[k], blocks, live);
    }
    forall j | j in live ensures Slot(u, blocks, sizes, live, j) && blocks[j] != q {
      assert Slot(u, b, s, l, j) && Slot(u, b, s, l, id);
    }
    assert forall j, k :: j in live && k in live && j != k ==> b[j] != b[k];
    PayloadAccepted(ranges, order, u, blocks, sizes, live, start, q, size);
  }

  /** A byte read through plain `char`, which is signed. */
  function SignedChar(b: Byte): int { if b < 128 then b else b - 256 }

  /** It is the value of that byte in the range of `char`, so only the low bytes below 128 are
      equal to what they are compared with. */
  lemma SignedCharIs(b: Byte)
    ensures -128 <= SignedChar(b) < 128 && (SignedChar(b) - b) % 256 == 0
    ensures SignedChar(b) == b <==> b < 128
  {
  }

  /** The loop of `eval_mm_valid` over the bytes kept by `mm_realloc`. */
  method CheckBytes(a: Allocator, newp: int, index: int, n: nat) returns (ok: bool)
    requires a.m.Valid() && a.m.start <= newp && newp + n <= a.m.start + MAX_HEAP
    ensures ok == forall i :: newp - a.m.start <= i < newp - a.m.start + n ==>
                    SignedChar(a.m.bytes[i]) == index % 256
  {
    var j := 0;
    while j < n
      invariant 0 <= j <= n
      invariant forall i :: newp - a.m.start <= i < newp - a.m.start + j ==> SignedChar(a.m.bytes[i]) == index % 256
    {
      var b := a.m.GetByte(newp + j);
      if SignedChar(b) != index % 256 { return false; }
      j := j + 1;
    }
    return true;
  }

  /** On a payload that kept its fill byte the check comes down to that byte. */
  lemma FillByteChecked(m: seq<Byte>, lo: nat, n: nat, id: int)
    requires 0 < n && lo + n <= |m| && forall i :: lo <= i < lo + n ==> m[i] == id % 256
    ensures (forall i :: lo <= i < lo + n ==> SignedChar(m[i]) == id % 256) <==> id % 256 < 128
  {
    assert m[lo] == id % 256;
  }

  lemma CopiedFilled(m0: seq<Byte>, m1: seq<Byte>, start: int, t: Tiles, blocks: seq<int>, sizes: seq<int>,
                     live: LiveSizes, id: int, q: int, k: int, n: int)
    requires id in live && Slot(t, blocks, sizes, live, id) && IdFilled(m0, start, blocks, live, id) && |m0| == |m1|
    requires 0 < n <= live[id] && n <= k && start <= q && q + k <= start + |m0| && blocks[id] + k <= start + |m0|
    requires Copied(m0, m1, start, blocks[id], q, k)
    ensures forall i :: q - start <= i < q - start + n ==> m1[i] == id % 256
  {
    var p := blocks[id];
    forall i | q - start <= i < q - start + n ensures m1[i] == id % 256 {
      assert CopiedByte(m0, m1, start, p, q, i - (q - start));
    }
  }

  /** The new range of a reallocated block for the old one. */
  method SwapRange(m: Memory, ranges: RangeList, oldp: int, newp: int, size: int, ghost t: Tiles, ghost u: Tiles,
                   ghost blocks: seq<int>, ghost sizes: seq<int>, ghost live: LiveSizes, ghost order: seq<int>,
                   ghost id: int)
    returns (ok: int)
    requires RangesMatch(ranges.ranges, order, blocks, live) && Tracked(t, blocks, sizes, live)
    requires id in live && 0 <= id < |blocks| && blocks[id] == oldp
    requires Tracked(u, blocks[id := newp], sizes[id := size], live[id := size]) && Tiling(u) && Live(u, newp)
    requires 0 < size <= u.blocks[newp].size - 8 && m.start + 8 == u.lo && m.brk == u.hi
    modifies ranges
    ensures ok == 1
    ensures RangesMatch(ranges.ranges, [id] + Without(order, {id}), blocks[id := newp], live[id := size])
  {
    hide Tiling, RangesMatch, Acceptable;
    RangesDrop(ranges.ranges, order, t, blocks, sizes, live, id);
    ranges.Remove(oldp);
    ghost var rest, others := ranges.ranges, live - {id};
    assert others[id := size] == live[id := size];
    AddAccepted(rest, Without(order, {id}), u, blocks, sizes, others, m.start, id, newp, size);
    ok := ranges.Add(m, newp, size);
    if ok == 0 { return; }
    RangesPut(rest, Without(order, {id}), blocks, others, id, newp, size);
  }

  /** The first half of a reallocation: the call, and the new range for the old one. */
  method ReallocRange(a: Allocator, trace: Trace, ranges: RangeList, index: int, size: int,
                      ghost live: LiveSizes, ghost order: seq<int>) returns (newp: int, ok: int)
    requires Checked(a, trace, ranges, live, order)
    requires T.OpOk(live, trace.numIds, T.Realloc(index, size)) && ReallocRoom(a, trace.blocks[index], size)
    modifies a, a.m, a.m.bytes, ranges
    ensures a.Valid() && newp != 0 && ok == 1
    ensures (a.heap, newp) == H.Realloc(old(a.heap), trace.blocks[index], H.Need(size))
    ensures Live(a.heap.t, newp) && size <= a.heap.t.blocks[newp].size - 8
    ensures var blocks, sizes := trace.blocks[..], trace.blockSizes[..];
      && 0 <= index < |blocks| && Slot(old(a.heap.t), blocks, sizes, live, index)
      && (forall j :: j in live && j != index ==> 0 <= j < |blocks| && blocks[j] !in {blocks[index], newp})
      && H.SameLive(old(a.heap.t), a.heap.t, {blocks[index], newp})
      && PayloadsKept(old(a.m.bytes[..]), a.m.bytes[..], a.m.start, old(a.heap.t), {blocks[index], newp})
      && Copied(old(a.m.bytes[..]), a.m.bytes[..], a.m.start, blocks[index], newp,
                Min(old(a.heap.t).blocks[blocks[index]].size - 8, size))
      && Tracked(a.heap.t, blocks[index := newp], sizes[index := size], live[index := size])
      && RangesMatch(ranges.ranges, [index] + Without(order, {index}), blocks[index := newp], live[index := size])
  {
    hide View, RepBut, Tiling, Copied, H.SameLive, RangesMatch;
    ghost var t, blocks, sizes := a.heap.t, trace.blocks[..], trace.blockSizes[..];
    var oldp := trace.blocks[index];
    assert Slot(t, blocks, sizes, live, index);
    newp := Realloc(a, oldp, size);
    if newp == 0 { return 0, 0; }
    ghost var u, m1 := a.heap.t, a.m.bytes[..];
    OthersApart(t, blocks, sizes, live, index, newp);
    OthersApart(t, blocks, sizes, live, index, oldp);
    TrackPut(t, u, blocks, sizes, live, index, newp, size, {oldp, newp});
    ok := SwapRange(a.m, ranges, oldp, newp, size, t, u, blocks, sizes, live, order, index);
    if ok == 0 { return 0, 0; }
    assert a.m.bytes[..] == m1;
  }

  method ValidRealloc(a: Allocator, trace: Trace, ranges: RangeList, index: int, size: int,
                      ghost live: LiveSizes, ghost order: seq<int>) returns (ok: int)
    requires Checked(a, trace, ranges, live, order)
    requires T.OpOk(live, trace.numIds, T.Realloc(index, size)) && ReallocRoom(a, trace.blocks[index], size)
    modifies a, a.m, a.m.bytes, trace.blocks, trace.blockSizes, ranges
    ensures ok == if T.SmallByte(index) then 1 else 0
    ensures ok == 1 ==> Checked(a, trace, ranges, live[index := size], [index] + Without(order, {index}))
    ensures var (g, q) := H.Realloc(old(a.heap), old(trace.blocks[index]), H.Need(size));
      a.heap == g && (ok == 1 ==> trace.blocks[..] == old(trace.blocks[..])[index := q])
    ensures a.Valid()
  {
    hide View, RepBut, Tiling, Copied, PayloadsKept, RangesMatch, H.SameLive, ReallocRoom, H.Realloc, Tracked;
    ghost var t, m0, blocks, sizes := a.heap.t, a.m.bytes[..], trace.blocks[..], trace.blockSizes[..];
    var newp;
    newp, ok := ReallocRange(a, trace, ranges, index, size, live, order);
    if newp == 0 || ok == 0 { return 0; }
    ghost var u, m1, oldp := a.heap.t, a.m.bytes[..], blocks[index];
    var oldsize := trace.blockSizes[index];
    if size < oldsize { oldsize := size; }
    ReallocBytes(m0, m1, a.m.start, t, u, blocks, sizes, live, index, newp, size, oldsize);
    FillByteChecked(m1, newp - a.m.start, oldsize, index);
    var same := CheckBytes(a, newp, index, oldsize);
    if !same { return 0; }
    assert a.m.bytes[..] == m1;
    Fill(a, newp, index % 256, size);
    FilledPut(m0, m1, a.m.bytes[..], a.m.start, t, u, {oldp, newp}, blocks, sizes, live, index, newp, size);
    trace.blocks[index] := newp;
    trace.blockSizes[index] := size;
  }

  lemma ReallocBytes(m0: seq<Byte>, m1: seq<Byte>, start: int, t: Tiles, u: Tiles, blocks: seq<int>, sizes: seq<int>,
                     live: LiveSizes, id: int, q: int, size: int, n: int)
    requires Tiling(t) && Tiling(u) && t.lo == u.lo == start + 8
    requires t.hi <= start + |m0| && u.hi <= start + |m0| && |m0| == |m1|
    requires id in live && Slot(t, blocks, sizes, live, id) && Filled(m0, start, blocks, live)
    requires Live(u, q) && 0 < size <= u.blocks[q].size - 8 && n == Min(size, live[id])
    requires Copied(m0, m1, start, blocks[id], q, Min(t.blocks[blocks[id]].size - 8, size))
    ensures n > 0 && start <= q && q + n <= start + |m0|
    ensures forall i :: q - start <= i < q - start + n ==> m1[i] == id % 256
  {
    assert Placed(t, blocks[id]) && Placed(u, q);
    assert IdFilled(m0, start, blocks, live, id);
    CopiedFilled(m0, m1, start, t, blocks, sizes, live, id, q, Min(t.blocks[blocks[id]].size - 8, size), n);
  }

  method ValidFree(a: Allocator, trace: Trace, ranges: RangeList, index: int,
                   ghost live: LiveSizes, ghost order: seq<int>)
    requires Checked(a, trace, ranges, live, order) && T.OpOk(live, trace.numIds, T.Free(index))
    modifies a, a.m, a.m.bytes, ranges
    ensures Checked(a, trace, ranges, live - {index}, Without(order, {index}))
    ensures Live(old(a.heap.t), trace.blocks[index]) && a.heap == H.Released(old(a.heap), trace.blocks[index])
  {
    ghost var t, m0, blocks, sizes := a.heap.t, a.m.bytes[..], trace.blocks[..], trace.blockSizes[..];
    var p := trace.blocks[index];
    assert Slot(t, blocks, sizes, live, index);
    RangesDrop(ranges.ranges, order, t, blocks, sizes, live, index);
    ranges.Remove(p);
    Release(a, p);
    TrackDrop(t, a.heap.t, blocks, sizes, live, index);
    FilledDrop(m0, a.m.bytes[..], a.m.start, t, a.heap.t, blocks, sizes, live, index);
  }

  /** What the interpreters need from the allocator before they start it afresh: either no
      free list yet, or one left over from an earlier trace that `mm_init` can take. */
  ghost predicate CanStart(a: Allocator)
    reads a, a.m, a.m.bytes
  {
    a.m.Valid() && H.StaleHeadOk(a.m.start + 8, a.freeList) && a.freeList <= a.m.start + MAX_HEAP - 8
  }

  /** The interpreters can start after any trace but one that left the bad list head. */
  lemma NextCanStart(a: Allocator)
    requires a.Valid()
    ensures CanStart(a) <==> a.freeList != BadHead(a.m.start)
  {
    HeadLeftOver(a);
  }

  /** A sensible trace, each of whose requests can be served in an arena at `start`. */
  ghost predicate GoodTrace(start: int, trace: Trace)
    requires Base(start)
  {
    && trace.Ready() && T.WellFormed(trace.ops, trace.numIds)
    && TraceRoom(start, trace.ops, start + MAX_HEAP)
  }

  /** Heap and block table are where the abstract allocator is. */
  ghost predicate Follows(h: H.Heap, blocks: seq<int>, s: Sim) {
    && h == s.st.h
    && (forall id :: id in s.at ==> 0 <= id < |blocks| && blocks[id] == s.at[id])
  }

  /** A request that can be served, in the driver's terms. */
  lemma NextServed(a: Allocator, trace: Trace, i: nat)
    requires a.Valid() && trace.Ready() && GoodTrace(a.m.start, trace) && i < |trace.ops|
    requires T.OpOk(T.LiveAfter(trace.ops, i), trace.numIds, trace.ops[i])
    requires Follows(a.heap, trace.blocks[..], SimAfter(a.m.start, trace.ops, i))
    ensures match trace.ops[i]
      case Alloc(index, size) => AllocRoom(a, size)
      case Free(index) => Live(a.heap.t, trace.blocks[index])
      case Realloc(index, size) => ReallocRoom(a, trace.blocks[index], size)
  {
    hide SimAfter, RepBut, View;
    var s, op := SimAfter(a.m.start, trace.ops, i), trace.ops[i];
    assert OpRoom(s, op, a.m.start + MAX_HEAP);
    NoBlockAtZero(a.heap.t);
  }

  /** The abstract allocator takes the same step as the interpreter. */
  lemma FollowNext(h: H.Heap, g: H.Heap, blocks: seq<int>, start: int, ops: seq<T.TraceOp>, i: nat, limit: int, q: int)
    requires Base(start) && i < |ops| && OpRoom(SimAfter(start, ops, i), ops[i], limit)
    requires Follows(h, blocks, SimAfter(start, ops, i)) && 0 <= ops[i].index < |blocks| && H.Inv(h)
    requires match ops[i]
      case Alloc(index, size) => H.Request(size) && (g, q) == H.Malloc(h, H.Need(size))
      case Free(index) => Live(h.t, blocks[index]) && g == H.Released(h, blocks[index])
      case Realloc(index, size) =>
        H.Request(size) && Live(h.t, blocks[index]) && (g, q) == H.Realloc(h, blocks[index], H.Need(size))
    ensures Follows(g, if ops[i].Free? then blocks else blocks[ops[i].index := q], SimAfter(start, ops, i + 1))
  {
    hide SimAfter, H.Malloc, H.Realloc, H.Released, HT.CallRoom, Tiling;
    var s := SimAfter(start, ops, i);
    NoBlockAtZero(h.t);
    SimUnfold(start, ops, i);
  }

  /** `mem_reset_brk` and `mm_init`. */
  method Start(a: Allocator) returns (r: int)
    requires CanStart(a)
    modifies a, a.m, a.m.bytes
    ensures r == 0 && a.Valid() && a.m.brk == a.m.start + 4112 && a.heap == H.Initial(a.m.start + 8)
  {
    a.m.ResetBrk();
    r := a.MmInit();
  }

  /** What holds after `i` requests of a run of `eval_mm_valid`. */
  ghost predicate ValidSoFar(a: Allocator, trace: Trace, ranges: RangeList, i: nat)
    requires i <= |trace.ops|
    reads a, a.m, a.m.bytes, trace.blocks, trace.blockSizes, ranges
  {
    && Checked(a, trace, ranges, T.LiveAfter(trace.ops, i), T.OrderAfter(trace.ops, i))
    && Follows(a.heap, trace.blocks[..], SimAfter(a.m.start, trace.ops, i))
  }

  /** The heap and the range list before the first request. */
  method StartValid(a: Allocator, trace: Trace, ranges: RangeList) returns (r: int)
    requires CanStart(a) && trace.Ready()
    modifies a, a.m, a.m.bytes, ranges
    ensures r == 0 && ValidSoFar(a, trace, ranges, 0)
  {
    r := Start(a);
    SimStart(a.m.start, trace.ops);
    ranges.Clear();
  }

  /** One turn of the loop of `eval_mm_valid`. */
  method ValidStep(a: Allocator, trace: Trace, ranges: RangeList, i: nat) returns (ok: int)
    requires a.m.Valid() && GoodTrace(a.m.start, trace) && i < |trace.ops| && ValidSoFar(a, trace, ranges, i)
    modifies a, a.m, a.m.bytes, trace.blocks, trace.blockSizes, ranges
    ensures ok == if trace.ops[i].Realloc? && !T.SmallByte(trace.ops[i].index) then 0 else 1
    ensures ok == 1 ==> ValidSoFar(a, trace, ranges, i + 1)
    ensures a.Valid()
  {
    hide View, RepBut, Tracked, Filled, RangesMatch, SimAfter, Follows, OpRoom;
    ghost var live, order := T.LiveAfter(trace.ops, i), T.OrderAfter(trace.ops, i);
    ghost var h, blocks, start := a.heap, trace.blocks[..], a.m.start;
    assert T.OpOk(live, trace.numIds, trace.ops[i]);
    assert OpRoom(SimAfter(start, trace.ops, i), trace.ops[i], start + MAX_HEAP);
    NextServed(a, trace, i);
    match trace.ops[i] {
      case Alloc(index, size) =>
        ok := ValidAlloc(a, trace, ranges, index, size, live, order);
        FollowNext(h, a.heap, blocks, start, trace.ops, i, start + MAX_HEAP, H.Malloc(h, H.Need(size)).1);
      case Realloc(index, size) =>
        ghost var q := H.Realloc(h, trace.blocks[index], H.Need(size)).1;
        ok := ValidRealloc(a, trace, ranges, index, size, live, order);
        FollowNext(h, a.heap, blocks, start, trace.ops, i, start + MAX_HEAP, q);
      case Free(index) =>
        ValidFree(a, trace, ranges, index, live, order);
        FollowNext(h, a.heap, blocks, start, trace.ops, i, start + MAX_HEAP, 0);
        ok := 1;
    }
  }

  /** `eval_mm_valid` accepts the allocator on every sensible trace that fits, exactly when
      no reallocated id has a low byte that plain `char` cannot hold; the range list ends up
      as the payload extents of the live ids. */
  method EvalMmValid(a: Allocator, trace: Trace, ranges: RangeList) returns (r: int)
    requires CanStart(a) && GoodTrace(a.m.start, trace)
    modifies a, a.m, a.m.bytes, trace.blocks, trace.blockSizes, ranges
    ensures r == 0 || r == 1
    ensures r == 1 <==>
              forall i :: 0 <= i < |trace.ops| && trace.ops[i].Realloc? ==> trace.ops[i].index % 256 < 128
    ensures r == 1 ==>
              && Checked(a, trace, ranges, T.LiveAfter(trace.ops, |trace.ops|), T.OrderAfter(trace.ops, |trace.ops|))
              && Follows(a.heap, trace.blocks[..], SimAfter(a.m.start, trace.ops, |trace.ops|))
    ensures a.Valid()
  {
    hide View, RepBut, Tiling, H.Inv, Tracked, RangesMatch, Filled, SimAfter, Follows, TraceRoom;
    var s := StartValid(a, trace, ranges);
    if s < 0 { return 0; }
    var i := 0;
    while i < |trace.ops|
      invariant 0 <= i <= |trace.ops| && T.ReallocIdsSmall(trace.ops, i)
      invariant ValidSoFar(a, trace, ranges, i)
    {
      T.SmallNext(trace.ops, i);
      var ok := ValidStep(a, trace, ranges, i);
      if ok == 0 { return 0; }
      i := i + 1;
    }
    return 1;
  }

  lemma PayloadMeans(m: seq<Byte>, start: int, t: Tiles, ranges: seq<Range>, order: seq<int>,
                     blocks: seq<int>, sizes: seq<int>, live: LiveSizes, id: int)
    requires Tiling(t) && t.lo == start + 8 && t.hi <= start + |m|
    requires Tracked(t, blocks, sizes, live) && Filled(m, start, blocks, live)
    requires RangesMatch(ranges, order, blocks, live) && id in live
    ensures 0 <= id < |blocks| && var p := blocks[id];
      && p % 8 == 0 && live[id] > 0 && start <= p && p + live[id] <= t.hi
      && (forall i :: p - start <= i < p - start + live[id] ==> m[i] == id % 256)
      && Range(p, p + live[id] - 1) in ranges
  {
    SlotOf(t, blocks, sizes, live, id);
    assert IdFilled(m, start, blocks, live, id);
    BlockPlaced(t, blocks[id]);
    AlignedMod(blocks[id]);
    var k :| 0 <= k < |order| && order[k] == id;
    assert RangeOf(ranges[k], order[k], blocks, live);
  }

  lemma PayloadsApart(t: Tiles, blocks: seq<int>, sizes: seq<int>, live: LiveSizes, i: int, j: int)
    requires Tiling(t) && Tracked(t, blocks, sizes, live) && i in live && j in live && i != j
    ensures 0 <= i < |blocks| && 0 <= j < |blocks|
    ensures blocks[i] + live[i] <= blocks[j] || blocks[j] + live[j] <= blocks[i]
  {
    SlotOf(t, blocks, sizes, live, i);
    SlotOf(t, blocks, sizes, live, j);
  }

  lemma RangeMeans(ranges: seq<Range>, order: seq<int>, blocks: seq<int>, live: LiveSizes, r: Range) returns (id: int)
    requires RangesMatch(ranges, order, blocks, live) && r in ranges
    ensures id in live && 0 <= id < |blocks| && r == Range(blocks[id], blocks[id] + live[id] - 1)
  {
    var k :| 0 <= k < |ranges| && ranges[k] == r;
    assert RangeOf(ranges[k], order[k], blocks, live);
    id := order[k];
  }

  lemma RangeCount(ranges: seq<Range>, order: seq<int>, blocks: seq<int>, live: LiveSizes)
    requires RangesMatch(ranges, order, blocks, live)
    ensures |ranges| == |live|
  {
    forall id ensures id in order <==> id in live.Keys {
      if id in order {
        var k :| 0 <= k < |order| && order[k] == id;
        assert RangeOf(ranges[k], order[k], blocks, live);
      }
    }
    DistinctCount(order, live.Keys);
  }

  /** What the checker has established, written out: the payload of every live id is aligned,
      inside the heap, full of the low byte of the id and apart from every other, and the range
      list holds the extents of the live payloads, one for each. */
  lemma LivePayloads(m: seq<Byte>, start: int, t: Tiles, ranges: seq<Range>, order: seq<int>,
                     blocks: seq<int>, sizes: seq<int>, live: LiveSizes)
    requires Tiling(t) && t.lo == start + 8 && t.hi <= start + |m|
    requires Tracked(t, blocks, sizes, live) && Filled(m, start, blocks, live)
    requires RangesMatch(ranges, order, blocks, live)
    ensures forall id :: id in live ==>
              0 <= id < |blocks| && var p := blocks[id];
              && p % 8 == 0 && live[id] > 0 && start <= p && p + live[id] <= t.hi
              && (forall i :: p - start <= i < p - start + live[id] ==> m[i] == id % 256)
              && Range(p, p + live[id] - 1) in ranges
    ensures forall i, j :: i in live && j in live && i != j ==>
              blocks[i] + live[i] <= blocks[j] || blocks[j] + live[j] <= blocks[i]
    ensures |ranges| == |live|
    ensures forall r :: r in ranges ==> exists id :: id in live && r == Range(blocks[id], blocks[id] + live[id] - 1)
  {
    hide Tracked, Filled, RangesMatch, Tiling;
    forall id | id in live
      ensures 0 <= id < |blocks| && var p := blocks[id];
        && p % 8 == 0 && live[id] > 0 && start <= p && p + live[id] <= t.hi
        && (forall i :: p - start <= i < p - start + live[id] ==> m[i] == id % 256)
        && Range(p, p + live[id] - 1) in ranges
    {
      PayloadMeans(m, start, t, ranges, order, blocks, sizes, live, id);
    }
    forall i, j | i in live && j in live && i != j
      ensures blocks[i] + live[i] <= blocks[j] || blocks[j] + live[j] <= blocks[i]
    {
      PayloadsApart(t, blocks, sizes, live, i, j);
    }
    forall r | r in ranges ensures exists id :: id in live && r == Range(blocks[id], blocks[id] + live[id] - 1) {
      var id := RangeMeans(ranges, order, blocks, live, r);
    }
    RangeCount(ranges, order, blocks, live);
  }

  lemma CheckedParts(a: Allocator, trace: Trace, ranges: RangeList, live: LiveSizes, order: seq<int>)
    requires Checked(a, trace, ranges, live, order)
    ensures var t, m, start := a.heap.t, a.m.bytes[..], a.m.start;
      && Tiling(t) && t.lo == start + 8 && t.hi == a.m.brk <= start + |m|
      && Tracked(t, trace.blocks[..], trace.blockSizes[..], live) && Filled(m, start, trace.blocks[..], live)
      && RangesMatch(ranges.ranges, order, trace.blocks[..], live)
  {
    hide Tracked, Filled, RangesMatch, Tiling, RepBut, View;
  }

  /** The shortest trace that the byte check rejects: block 128 allocated, then reallocated. */
  function LargeIdTrace(): seq<T.TraceOp> { [T.Alloc(128, 1), T.Realloc(128, 1)] }

  lemma LargeIdIsGood()
    ensures var ops := LargeIdTrace();
      T.WellFormed(ops, 129) && 4112 + T.GrowthAfter(ops, |ops|) <= MAX_HEAP && !T.ReallocIdsSmall(ops, |ops|)
  {
    var ops := LargeIdTrace();
    assert T.LiveAfter(ops, 0) == map[] && T.LiveAfter(ops, 1) == map[128 := 1];
    assert T.GrowthAfter(ops, 0) == 0;
    assert T.GrowthAfter(ops, 1) == T.OpGrowth(ops[0]);
    assert T.GrowthAfter(ops, 2) == T.OpGrowth(ops[0]) + T.OpGrowth(ops[1]);
    assert !T.SmallByte(ops[1].index);
  }

  /** A trace that makes sense and fits, on which `eval_mm_valid` finds fault. */
  method RejectLargeId(a: Allocator, ranges: RangeList) returns (trace: Trace, r: int)
    requires CanStart(a)
    modifies a, a.m, a.m.bytes, ranges
    ensures Base(a.m.start) && GoodTrace(a.m.start, trace) && r == 0
  {
    LargeIdIsGood();
    trace := new Trace(LargeIdTrace(), 129);
    BoundIsTraceRoom(a.m.start, trace.ops, 129, a.m.start + MAX_HEAP);
    r := EvalMmValid(a, trace, ranges);
  }

  // ---------- eval_mm_util ----------

  /** The live payloads are disjoint, so their sizes add up to less than the heap. */
  lemma {:induction false} TotalFits(t: Tiles, blocks: seq<int>, sizes: seq<int>, live: LiveSizes, top: int)
    requires Tiling(t) && Tracked(t, blocks, sizes, live) && top >= t.lo + 8
    requires forall id :: id in live ==> Slot(t, blocks, sizes, live, id) && Next(t, blocks[id]) <= top
    ensures T.Total(live) <= top - (t.lo + 8)
    decreases |live|
  {
    var last := Highest(t, blocks, sizes, live, |blocks|);
    forall id | id in live ensures last != -1 && blocks[id] <= blocks[last] {
      assert Slot(t, blocks, sizes, live, id);
    }
    if last == -1 {
    } else {
      var rest := live - {last};
      var b := blocks[last];
      assert Slot(t, blocks, sizes, live, last) && Placed(t, b);
      forall j | j in rest ensures Slot(t, blocks, sizes, rest, j) && Next(t, blocks[j]) <= b {
        assert Slot(t, blocks, sizes, live, j) && blocks[j] <= blocks[last];
      }
      TotalFits(t, blocks, sizes, rest, b);
      T.TotalWithout(live, last);
    }
  }

  /** The live id below `n` with the highest block, or -1 when there is none. */
  lemma {:induction false} Highest(t: Tiles, blocks: seq<int>, sizes: seq<int>, live: LiveSizes, n: nat)
    returns (top: int)
    requires Tracked(t, blocks, sizes, live) && n <= |blocks|
    ensures top == -1 || (top in live && 0 <= top < |blocks|)
    ensures forall j :: j in live && 0 <= j < n ==> top != -1 && blocks[j] <= blocks[top]
  {
    if n == 0 { return -1; }
    top := Highest(t, blocks, sizes, live, n - 1);
    if n - 1 in live && (top == -1 || blocks[n-1] > blocks[top]) { top := n - 1; }
  }

  lemma TotalBelowHeap(a: Allocator, trace: Trace, live: LiveSizes)
    requires Interp(a, trace, live)
    ensures T.Total(live) <= a.m.brk - a.m.start - 16
  {
    var t, blocks, sizes := a.heap.t, trace.blocks[..], trace.blockSizes[..];
    Bounds(t);
    assert Next(t, t.lo) in t.blocks || Next(t, t.lo) == t.hi;
    forall id | id in live ensures Slot(t, blocks, sizes, live, id) && Next(t, blocks[id]) <= t.hi {
      assert Slot(t, blocks, sizes, live, id) && Placed(t, blocks[id]);
    }
    TotalFits(t, blocks, sizes, live, t.hi);
  }

  /** What holds after `i` requests of a run of `eval_mm_util`. */
  ghost predicate UtilSoFar(a: Allocator, trace: Trace, i: nat, total: int, maxTotal: int)
    requires i <= |trace.ops|
    reads a, a.m, a.m.bytes, trace.blocks, trace.blockSizes
  {
    && Interp(a, trace, T.LiveAfter(trace.ops, i))
    && Follows(a.heap, trace.blocks[..], SimAfter(a.m.start, trace.ops, i))
    && total == T.Total(T.LiveAfter(trace.ops, i))
    && maxTotal == T.PeakAfter(trace.ops, i) <= a.m.brk - a.m.start - 16
  }

  method UtilAlloc(a: Allocator, trace: Trace, index: int, size: int, ghost live: LiveSizes)
    requires Interp(a, trace, live) && T.OpOk(live, trace.numIds, T.Alloc(index, size)) && AllocRoom(a, size)
    modifies a, a.m, a.m.bytes, trace.blocks, trace.blockSizes
    ensures Interp(a, trace, live[index := size])
    ensures trace.blocks[..] == old(trace.blocks[..])[index := H.Malloc(old(a.heap), H.Need(size)).1]
    ensures a.heap == H.Malloc(old(a.heap), H.Need(size)).0
    ensures old(a.m.brk) <= a.m.brk
  {
    hide View, RepBut, Tiling, Tracked, H.SameLive, PayloadsKept;
    ghost var t, blocks, sizes := a.heap.t, trace.blocks[..], trace.blockSizes[..];
    var p := Malloc(a, size);
    OthersApart(t, blocks, sizes, live, index, p);
    TrackPut(t, a.heap.t, blocks, sizes, live, index, p, size, {p});
    trace.blocks[index] := p;
    trace.blockSizes[index] := size;
  }

  method UtilRealloc(a: Allocator, trace: Trace, index: int, size: int, ghost live: LiveSizes) returns (oldsize: int)
    requires Interp(a, trace, live) && T.OpOk(live, trace.numIds, T.Realloc(index, size))
    requires ReallocRoom(a, trace.blocks[index], size)
    modifies a, a.m, a.m.bytes, trace.blocks, trace.blockSizes
    ensures Interp(a, trace, live[index := size]) && oldsize == live[index]
    ensures var (g, q) := H.Realloc(old(a.heap), old(trace.blocks[index]), H.Need(size));
      a.heap == g && trace.blocks[..] == old(trace.blocks[..])[index := q]
    ensures old(a.m.brk) <= a.m.brk
  {
    hide View, RepBut, Tiling, Tracked, H.SameLive, PayloadsKept, Copied, ReallocRoom, H.Realloc, H.Inv, H.Wf;
    ghost var t, blocks, sizes := a.heap.t, trace.blocks[..], trace.blockSizes[..];
    SlotOf(t, blocks, sizes, live, index);
    oldsize := trace.blockSizes[index];
    var oldp := trace.blocks[index];
    var newp := Realloc(a, oldp, size);
    OthersApart(t, blocks, sizes, live, index, newp);
    OthersApart(t, blocks, sizes, live, index, oldp);
    TrackPut(t, a.heap.t, blocks, sizes, live, index, newp, size, {oldp, newp});
    trace.blocks[index] := newp;
    trace.blockSizes[index] := size;
  }

  method UtilFree(a: Allocator, trace: Trace, index: int, ghost live: LiveSizes) returns (size: int)
    requires Interp(a, trace, live) && T.OpOk(live, trace.numIds, T.Free(index))
    modifies a, a.m, a.m.bytes
    ensures Interp(a, trace, live - {index}) && size == live[index] && a.m.brk == old(a.m.brk)
    ensures Live(old(a.heap.t), trace.blocks[index]) && a.heap == H.Released(old(a.heap), trace.blocks[index])
  {
    ghost var t, blocks, sizes := a.heap.t, trace.blocks[..], trace.blockSizes[..];
    assert Slot(t, blocks, sizes, live, index);
    size := trace.blockSizes[index];
    var p := trace.blocks[index];
    Release(a, p);
    TrackDrop(t, a.heap.t, blocks, sizes, live, index);
  }

  method StartUtil(a: Allocator, trace: Trace)
    requires CanStart(a) && trace.Ready()
    modifies a, a.m, a.m.bytes
    ensures UtilSoFar(a, trace, 0, 0, 0)
  {
    var s := Start(a);
    SimStart(a.m.start, trace.ops);
  }

  /** One turn of the loop of `eval_mm_util`. */
  method UtilStep(a: Allocator, trace: Trace, i: nat, total: int, maxTotal: int) returns (total': int, maxTotal': int)
    requires a.m.Valid() && GoodTrace(a.m.start, trace)
    requires i < |trace.ops| && UtilSoFar(a, trace, i, total, maxTotal)
    modifies a, a.m, a.m.bytes, trace.blocks, trace.blockSizes
    ensures UtilSoFar(a, trace, i + 1, total', maxTotal')
  {
    hide View, RepBut, Tracked, SimAfter, Follows, OpRoom, H.Realloc, H.Malloc, H.Released, H.Inv, Tiling;
    ghost var live, h, blocks, start := T.LiveAfter(trace.ops, i), a.heap, trace.blocks[..], a.m.start;
    assert T.OpOk(live, trace.numIds, trace.ops[i]);
    assert OpRoom(SimAfter(start, trace.ops, i), trace.ops[i], start + MAX_HEAP);
    NextServed(a, trace, i);
    T.PeakBounds(trace.ops, i);
    match trace.ops[i] {
      case Alloc(index, size) =>
        T.TotalPut(live, index, size);
        UtilAlloc(a, trace, index, size, live);
        FollowNext(h, a.heap, blocks, start, trace.ops, i, start + MAX_HEAP, H.Malloc(h, H.Need(size)).1);
        total' := total + size;
        maxTotal' := if total' > maxTotal then total' else maxTotal;
      case Realloc(index, size) =>
        T.TotalPut(live, index, size);
        ghost var q := H.Realloc(h, trace.blocks[index], H.Need(size)).1;
        var oldsize := UtilRealloc(a, trace, index, size, live);
        FollowNext(h, a.heap, blocks, start, trace.ops, i, start + MAX_HEAP, q);
        total' := total + (size - oldsize);
        maxTotal' := if total' > maxTotal then total' else maxTotal;
      case Free(index) =>
        T.TotalWithout(live, index);
        SlotOf(a.heap.t, blocks, trace.blockSizes[..], live, index);
        var size := UtilFree(a, trace, index, live);
        FollowNext(h, a.heap, blocks, start, trace.ops, i, start + MAX_HEAP, 0);
        total' := total - size;
        maxTotal' := maxTotal;
    }
    TotalBelowHeap(a, trace, T.LiveAfter(trace.ops, i + 1));
  }

  /** `eval_mm_util` reports the peak of the live sizes over the heap size, and the peak is
      at least 16 bytes below the heap size, so the reported utilisation is below one. */
  method EvalMmUtil(a: Allocator, trace: Trace) returns (util: real)
    requires CanStart(a) && GoodTrace(a.m.start, trace)
    modifies a, a.m, a.m.bytes, trace.blocks, trace.blockSizes
    ensures var heapSize := a.m.brk - a.m.start; var peak := T.PeakAfter(trace.ops, |trace.ops|);
      heapSize > 0 && util == peak as real / heapSize as real && peak <= heapSize - 16 && 0.0 <= util < 1.0
    ensures forall i :: 0 <= i <= |trace.ops| ==>
              T.Total(T.LiveAfter(trace.ops, i)) <= T.PeakAfter(trace.ops, |trace.ops|)
    ensures exists i :: 0 <= i <= |trace.ops|
              && T.Total(T.LiveAfter(trace.ops, i)) == T.PeakAfter(trace.ops, |trace.ops|)
    ensures a.Valid() && Follows(a.heap, trace.blocks[..], SimAfter(a.m.start, trace.ops, |trace.ops|))
  {
    hide View, RepBut, Tiling, H.Inv, Tracked, T.PeakAfter, T.LiveAfter, SimAfter, Follows, TraceRoom;
    StartUtil(a, trace);
    var total, maxTotal, i := 0, 0, 0;
    while i < |trace.ops|
      invariant 0 <= i <= |trace.ops|
      invariant UtilSoFar(a, trace, i, total, maxTotal)
    {
      total, maxTotal := UtilStep(a, trace, i, total, maxTotal);
      i := i + 1;
    }
    T.PeakBounds(trace.ops, |trace.ops|);
    ghost var top := T.PeakIsMax(trace.ops, |trace.ops|);
    var heapSize := a.m.HeapSize();
    util := Ratio(maxTotal, heapSize);
  }

  method Ratio(x: int, y: int) returns (r: real)
    requires 0 <= x < y
    ensures r == x as real / y as real && 0.0 <= r < 1.0
  {
    r := x as real / y as real;
  }
}
