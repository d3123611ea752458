/** Traces as runs of the abstract allocator: which calls the requests of a trace become, and
    when each of them finds the room it needs. */
module TraceRuns {

  import opened Bits
  import opened Common
  import opened Tiles
  import opened Traces
  import H = HeapModel
  import HT = HeapTheorems

  /** The abstract allocator, and the block of each live id. */
  datatype Sim = Sim(st: HT.State, at: map<int, int>)

  ghost predicate SimOk(s: Sim) { H.Inv(s.st.h) && HT.Tight(s.st) }

  function Target(s: Sim, id: int): int { if id in s.at then s.at[id] else 0 }

  /** The call that a request becomes. */
  function CallOf(s: Sim, op: TraceOp): HT.Call {
    match op
    case Alloc(index, size) => HT.Call.Alloc(size)
    case Free(index) => HT.Call.Dealloc(Target(s, index))
    case Realloc(index, size) => HT.Call.Resize(Target(s, index), size)
  }

  ghost function SimStep(s: Sim, op: TraceOp): (u: Sim)
    requires SimOk(s)
    ensures SimOk(u)
  {
    var call := CallOf(s, op);
    if !HT.Enabled(s.st.h, call) then s else
    HT.StepKeeps(s.st, call);
    Sim(HT.Step(s.st, call), if op.Free? then s.at - {op.index} else s.at[op.index := HT.Result(s.st.h, call)])
  }

  /** An address where the arena can begin. */
  ghost predicate Base(start: int) { 0 < start && Aligned(start) }

  /** The first `n` requests, from `mm_init` in an arena at `start` on. */
  ghost function SimAfter(start: int, ops: seq<TraceOp>, n: nat): (s: Sim)
    requires Base(start) && n <= |ops|
    ensures SimOk(s)
  {
    if n == 0 then
      SmallMultiples();
      AlignedSum(start, 8);
      Sim(HT.Fresh(start + 8), map[])
    else
      SimStep(SimAfter(start, ops, n - 1), ops[n-1])
  }

  lemma SimStart(start: int, ops: seq<TraceOp>)
    requires Base(start)
    ensures SimAfter(start, ops, 0).st.h == H.Initial(start + 8) && SimAfter(start, ops, 0).st.h.t.hi == start + 4112
    ensures SimAfter(start, ops, 0).at == map[]
  {
  }

  lemma SimUnfold(start: int, ops: seq<TraceOp>, n: nat)
    requires Base(start) && n < |ops|
    ensures SimAfter(start, ops, n + 1) == SimStep(SimAfter(start, ops, n), ops[n])
  {
  }

  /** A request can be served: its size does not wrap around, and if the heap must be extended
      for it there is room below `limit`. */
  ghost predicate OpRoom(s: Sim, op: TraceOp, limit: int)
    requires SimOk(s)
  {
    HT.Enabled(s.st.h, CallOf(s, op)) && HT.CallRoom(s.st.h, CallOf(s, op), limit)
  }

  /** Each request of the trace can be served when its turn comes. */
  ghost predicate TraceRoom(start: int, ops: seq<TraceOp>, limit: int)
    requires Base(start)
  {
    forall i {:trigger OpRoom(SimAfter(start, ops, i), ops[i], limit)} ::
      0 <= i < |ops| ==> OpRoom(SimAfter(start, ops, i), ops[i], limit)
  }

  // ---------- when a trace has room ----------

  ghost predicate Requests(ops: seq<TraceOp>) {
    forall i :: 0 <= i < |ops| && !ops[i].Free? ==> H.Request(ops[i].size)
  }

  /** Every live id has a live block of its own. */
  ghost predicate Owned(s: Sim, live: map<int, int>) {
    && (forall id :: id in live <==> id in s.at)
    && (forall id :: id in s.at ==> Live(s.st.h.t, s.at[id]))
    && (forall i, j :: i in s.at && j in s.at && i != j ==> s.at[i] != s.at[j])
  }

  lemma OwnedStep(s: Sim, live: map<int, int>, numIds: int, op: TraceOp)
    requires SimOk(s) && Owned(s, live) && OpOk(live, numIds, op)
    requires !op.Free? ==> H.Request(op.size)
    ensures HT.Enabled(s.st.h, CallOf(s, op)) && Owned(SimStep(s, op), Apply(live, op))
  {
    hide H.Inv, HT.Tight, H.Malloc, H.Released;
    match op
    case Alloc(index, size) => H.MallocInv(s.st.h, H.Need(size));
    case Free(index) => H.ReleasedInv(s.st.h, s.at[index]);
    case Realloc(index, size) => H.ReallocInv(s.st.h, s.at[index], H.Need(size));
  }

  lemma OwnedNext(s: Sim, ops: seq<TraceOp>, numIds: int, n: nat)
    requires n < |ops| && SimOk(s) && Owned(s, LiveAfter(ops, n))
    requires OpOk(LiveAfter(ops, n), numIds, ops[n]) && (!ops[n].Free? ==> H.Request(ops[n].size))
    ensures Owned(SimStep(s, ops[n]), LiveAfter(ops, n + 1))
  {
    hide SimStep, SimOk, Owned, OpOk, Apply, LiveAfter, H.Request;
    OwnedStep(s, LiveAfter(ops, n), numIds, ops[n]);
    LiveUnfold(ops, n);
  }

  lemma StartOwned(start: int, ops: seq<TraceOp>)
    requires Base(start)
    ensures Owned(SimAfter(start, ops, 0), LiveAfter(ops, 0))
  {
    hide SimAfter;
    SimStart(start, ops);
  }

  lemma {:induction false} SimOwned(start: int, ops: seq<TraceOp>, numIds: int, n: nat)
    requires Base(start) && n <= |ops| && WellFormed(ops, numIds) && Requests(ops)
    ensures Owned(SimAfter(start, ops, n), LiveAfter(ops, n))
  {
    hide SimAfter, SimStep, SimOk, Owned, OpOk, LiveAfter, WellFormed, H.Request;
    if n == 0 {
      StartOwned(start, ops);
    } else {
      SimOwned(start, ops, numIds, n - 1);
      OpOkAt(ops, numIds, n - 1);
      OwnedNext(SimAfter(start, ops, n - 1), ops, numIds, n - 1);
      SimUnfold(start, ops, n - 1);
    }
  }

  /** A sensible request never lowers the break, raises it by no more than its growth, and can
      be served if and only if it does not take it past the limit. */
  lemma SimNext(start: int, ops: seq<TraceOp>, numIds: int, n: nat, limit: int)
    requires Base(start) && n < |ops| && WellFormed(ops, numIds) && Requests(ops)
    ensures var s, u := SimAfter(start, ops, n), SimAfter(start, ops, n + 1);
      && s.st.h.t.hi <= u.st.h.t.hi <= s.st.h.t.hi + OpGrowth(ops[n])
      && (s.st.h.t.hi <= limit ==> (OpRoom(s, ops[n], limit) <==> u.st.h.t.hi <= limit))
  {
    hide H.Inv, HT.Tight, HT.Step, HT.CallRoom, Owned, SimAfter, WellFormed;
    var s, op := SimAfter(start, ops, n), ops[n];
    SimOwned(start, ops, numIds, n);
    SimUnfold(start, ops, n);
    OpOkAt(ops, numIds, n);
    OwnedStep(s, LiveAfter(ops, n), numIds, op);
    HT.StepKeeps(s.st, CallOf(s, op));
    if !op.Free? { NeedIsBlockBytes(op.size); }
    if s.st.h.t.hi <= limit { HT.RoomIsExact(s.st, CallOf(s, op), limit); }
  }

  lemma {:induction false} SimBreak(start: int, ops: seq<TraceOp>, numIds: int, n: nat, k: nat)
    requires Base(start) && n <= k <= |ops| && WellFormed(ops, numIds) && Requests(ops)
    ensures var low, high := SimAfter(start, ops, n).st.h.t.hi, SimAfter(start, ops, k).st.h.t.hi;
      low <= high <= low + GrowthAfter(ops, k) - GrowthAfter(ops, n)
  {
    hide SimAfter, WellFormed, Requests;
    if n == k {
    } else {
      SimBreak(start, ops, numIds, n, k - 1);
      SimNext(start, ops, numIds, k - 1, 0);
    }
  }

  lemma RoomFromBreak(start: int, ops: seq<TraceOp>, numIds: int, limit: int)
    requires Base(start) && WellFormed(ops, numIds) && Requests(ops)
    requires SimAfter(start, ops, |ops|).st.h.t.hi <= limit
    ensures TraceRoom(start, ops, limit)
  {
    hide SimAfter, WellFormed, Requests, OpRoom, GrowthAfter;
    forall i | 0 <= i < |ops| ensures OpRoom(SimAfter(start, ops, i), ops[i], limit) {
      SimBreak(start, ops, numIds, i, i + 1);
      SimBreak(start, ops, numIds, i + 1, |ops|);
      SimNext(start, ops, numIds, i, limit);
    }
  }

  lemma {:induction false} BreakFromRoom(start: int, ops: seq<TraceOp>, numIds: int, limit: int, n: nat)
    requires Base(start) && n <= |ops| && WellFormed(ops, numIds) && Requests(ops) && TraceRoom(start, ops, limit)
    requires start + 4112 <= limit
    ensures SimAfter(start, ops, n).st.h.t.hi <= limit
  {
    hide SimAfter, WellFormed, Requests, OpRoom;
    if n == 0 {
      SimStart(start, ops);
    } else {
      BreakFromRoom(start, ops, numIds, limit, n - 1);
      assert OpRoom(SimAfter(start, ops, n - 1), ops[n-1], limit);
      SimNext(start, ops, numIds, n - 1, limit);
    }
  }

  lemma RoomRequests(start: int, ops: seq<TraceOp>, limit: int)
    requires Base(start) && TraceRoom(start, ops, limit)
    ensures Requests(ops)
  {
    forall i | 0 <= i < |ops| && !ops[i].Free? ensures H.Request(ops[i].size) {
      assert OpRoom(SimAfter(start, ops, i), ops[i], limit);
    }
  }

  /** A sensible trace has room if and only if no block size wraps around and the heap it ends
      with does not pass the limit. */
  lemma TraceRoomIsExact(start: int, ops: seq<TraceOp>, numIds: int, limit: int)
    requires Base(start) && WellFormed(ops, numIds) && start + 4112 <= limit
    ensures TraceRoom(start, ops, limit) <==> Requests(ops) && SimAfter(start, ops, |ops|).st.h.t.hi <= limit
  {
    hide SimAfter, OpRoom, TraceRoom, Requests;
    if TraceRoom(start, ops, limit) {
      RoomRequests(start, ops, limit);
      BreakFromRoom(start, ops, numIds, limit, |ops|);
    } else if Requests(ops) && SimAfter(start, ops, |ops|).st.h.t.hi <= limit {
      RoomFromBreak(start, ops, numIds, limit);
    }
  }

  /** What one call may add to the heap: 8 + align(size), or 4096 if that is less. */
  lemma GrowthMeans(size: int, p: int)
    requires H.Request(size)
    ensures var bytes := 8 + (size + 7) / 8 * 8;
      && H.Need(size) == bytes && H.Extension(bytes) == (if bytes > 4096 then bytes else 4096)
      && HT.Growth(HT.Call.Alloc(size)) == HT.Growth(HT.Call.Resize(p, size)) == H.Extension(bytes)
      && HT.Growth(HT.Call.Dealloc(p)) == 0
  {
    NeedIsBlockBytes(size);
  }

  /** Room for one extension per request is more than enough. */
  lemma BoundIsTraceRoom(start: int, ops: seq<TraceOp>, numIds: int, limit: int)
    requires Base(start) && WellFormed(ops, numIds)
    requires start + 4112 + GrowthAfter(ops, |ops|) <= limit < WORD_LIMIT
    ensures TraceRoom(start, ops, limit)
  {
    hide SimAfter, OpRoom, TraceRoom;
    forall i | 0 <= i < |ops| && !ops[i].Free? ensures H.Request(ops[i].size) {
      assert OpOk(LiveAfter(ops, i), numIds, ops[i]);
      GrowthMonotone(ops, 0, i);
      GrowthMonotone(ops, i + 1, |ops|);
      assert BlockBytes(ops[i].size) >= ops[i].size + 8;
    }
    SimStart(start, ops);
    SimBreak(start, ops, numIds, 0, |ops|);
    RoomFromBreak(start, ops, numIds, limit);
  }
}
