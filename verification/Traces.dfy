/** Traces of allocator requests: which requests make sense, what is live after them, and
    how much memory they can need. */
module Traces {

  import opened Bits
  import opened Common
  import opened FreeList
  import H = HeapModel

  datatype TraceOp = Alloc(index: int, size: int) | Free(index: int) | Realloc(index: int, size: int)

  // ---------- what is live ----------

  /** The sizes of the live ids after one more request. */
  function Apply(live: map<int, int>, op: TraceOp): map<int, int> {
    match op
    case Alloc(index, size) => live[index := size]
    case Free(index) => live - {index}
    case Realloc(index, size) => live[index := size]
  }

  /** The sizes of the live ids after the first `n` requests. */
  function LiveAfter(ops: seq<TraceOp>, n: nat): map<int, int>
    requires n <= |ops|
  {
    if n == 0 then map[] else Apply(LiveAfter(ops, n - 1), ops[n-1])
  }

  lemma LiveUnfold(ops: seq<TraceOp>, n: nat)
    requires n < |ops|
    ensures LiveAfter(ops, n + 1) == Apply(LiveAfter(ops, n), ops[n])
  {
  }

  /** The last request on an id decides: after a release it is not live, after any other it
      is, with the size of that request. */
  lemma {:induction false} LastDecides(ops: seq<TraceOp>, n: nat, k: nat, id: int)
    requires k < n <= |ops| && ops[k].index == id && forall i :: k < i < n ==> ops[i].index != id
    ensures id in LiveAfter(ops, n) <==> !ops[k].Free?
    ensures !ops[k].Free? ==> LiveAfter(ops, n)[id] == ops[k].size
  {
    if n == k + 1 {
    } else {
      LastDecides(ops, n - 1, k, id);
    }
  }

  /** Without any request on it an id is not live. */
  lemma {:induction false} NeverLive(ops: seq<TraceOp>, n: nat, id: int)
    requires n <= |ops| && forall i :: 0 <= i < n ==> ops[i].index != id
    ensures id !in LiveAfter(ops, n)
  {
    if n == 0 {
    } else {
      NeverLive(ops, n - 1, id);
    }
  }

  /** The live ids after the first `n` requests, the one with the newest range first. */
  function OrderAfter(ops: seq<TraceOp>, n: nat): seq<int>
    requires n <= |ops|
  {
    if n == 0 then [] else
    var before := OrderAfter(ops, n - 1);
    match ops[n-1]
    case Alloc(index, size) => [index] + before
    case Free(index) => Without(before, {index})
    case Realloc(index, size) => [index] + Without(before, {index})
  }

  /** A request that makes sense: positive sizes, allocation of an id that is not live,
      release and reallocation of one that is. */
  predicate OpOk(live: map<int, int>, numIds: int, op: TraceOp) {
    0 <= op.index < numIds &&
    match op
    case Alloc(index, size) => index !in live && size > 0
    case Free(index) => index in live
    case Realloc(index, size) => index in live && size > 0
  }

  ghost predicate WellFormed(ops: seq<TraceOp>, numIds: int) {
    forall i {:trigger OpOk(LiveAfter(ops, i), numIds, ops[i])} ::
      0 <= i < |ops| ==> OpOk(LiveAfter(ops, i), numIds, ops[i])
  }

  lemma OpOkAt(ops: seq<TraceOp>, numIds: int, i: nat)
    requires WellFormed(ops, numIds) && i < |ops|
    ensures OpOk(LiveAfter(ops, i), numIds, ops[i])
  {
  }

  /** The order lists each live id once. */
  lemma {:induction false} OrderIsLive(ops: seq<TraceOp>, numIds: int, n: nat)
    requires n <= |ops| && WellFormed(ops, numIds)
    ensures Distinct(OrderAfter(ops, n))
    ensures forall id :: id in OrderAfter(ops, n) <==> id in LiveAfter(ops, n)
  {
    if n == 0 {
    } else {
      OrderIsLive(ops, numIds, n - 1);
      assert OpOk(LiveAfter(ops, n - 1), numIds, ops[n-1]);
      var before, index := OrderAfter(ops, n - 1), ops[n-1].index;
      WithoutDistinct(before, {index});
      if !ops[n-1].Free? {
        PushDistinct(if ops[n-1].Alloc? then before else Without(before, {index}), index);
      }
    }
  }

  // ---------- how much memory ----------

  /** `8 + align(size)`, without wrap-around. */
  function BlockBytes(size: int): int { 8 + (size + 7) / 8 * 8 }

  function OpGrowth(op: TraceOp): int {
    if op.Free? then 0 else Max(BlockBytes(op.size), H.CHUNK_SIZE)
  }

  function GrowthAfter(ops: seq<TraceOp>, n: nat): int
    requires n <= |ops|
  {
    if n == 0 then 0 else GrowthAfter(ops, n - 1) + OpGrowth(ops[n-1])
  }

  lemma {:induction false} GrowthMonotone(ops: seq<TraceOp>, n: nat, k: nat)
    requires n <= k <= |ops|
    ensures GrowthAfter(ops, n) <= GrowthAfter(ops, k)
  {
    if n == k {
    } else {
      GrowthMonotone(ops, n, k - 1);
    }
  }

  lemma NeedIsBlockBytes(size: int)
    requires H.Request(size)
    ensures H.Need(size) == BlockBytes(size)
    ensures H.Extension(H.Need(size)) == Max(BlockBytes(size), H.CHUNK_SIZE)
  {
    var k :| H.Need(size) == Eight(k);
    FloorOfEight(size + 7, k - 1);
  }

  lemma FloorOfEight(x: int, k: int)
    requires 8 * k <= x < 8 * k + 8
    ensures x / 8 == k
  {
  }

  /** Ids that `eval_mm_valid` can check with its plain `char` buffer. */
  predicate SmallByte(index: int) { index % 256 < 128 }

  ghost predicate ReallocIdsSmall(ops: seq<TraceOp>, n: nat)
    requires n <= |ops|
  {
    forall i :: 0 <= i < n && ops[i].Realloc? ==> SmallByte(ops[i].index)
  }

  lemma SmallNext(ops: seq<TraceOp>, n: nat)
    requires n < |ops| && ReallocIdsSmall(ops, n)
    ensures ReallocIdsSmall(ops, n + 1) <==> (ops[n].Realloc? ==> SmallByte(ops[n].index))
    ensures ReallocIdsSmall(ops, |ops|) ==> ReallocIdsSmall(ops, n + 1)
  {
  }

  // ---------- totals ----------

  /** The sum of the sizes of the live ids. */
  ghost function Total(live: map<int, int>): int
    decreases |live|
  {
    if id :| id in live then live[id] + Total(live - {id}) else 0
  }

  lemma {:induction false} TotalWithout(live: map<int, int>, id: int)
    requires id in live
    ensures Total(live) == live[id] + Total(live - {id})
    decreases |live|
  {
    var pick :| pick in live && Total(live) == live[pick] + Total(live - {pick});
    if pick == id {
    } else {
      TotalWithout(live - {pick}, id);
      TotalWithout(live - {id}, pick);
      assert live - {pick} - {id} == live - {id} - {pick};
    }
  }

  lemma TotalNone()
    ensures Total(map[]) == 0
  {
  }

  lemma TotalPut(live: map<int, int>, id: int, size: int)
    ensures Total(live[id := size]) == Total(live - {id}) + size
    ensures Total(live) == Total(live - {id}) + (if id in live then live[id] else 0)
  {
    TotalWithout(live[id := size], id);
    assert live[id := size] - {id} == live - {id};
    if id in live { TotalWithout(live, id); } else { assert live - {id} == live; }
  }

  /** The largest total of live sizes over the first `n` requests. */
  ghost function PeakAfter(ops: seq<TraceOp>, n: nat): int
    requires n <= |ops|
  {
    if n == 0 then 0 else Max(PeakAfter(ops, n - 1), Total(LiveAfter(ops, n)))
  }

  /** The peak is the largest total after any of the requests, or before the first. */
  lemma {:induction false} PeakIsMax(ops: seq<TraceOp>, n: nat) returns (top: nat)
    requires n <= |ops|
    ensures forall i :: 0 <= i <= n ==> Total(LiveAfter(ops, i)) <= PeakAfter(ops, n)
    ensures top <= n && PeakAfter(ops, n) == Total(LiveAfter(ops, top))
  {
    if n == 0 {
      TotalNone();
      top := 0;
    } else {
      top := PeakIsMax(ops, n - 1);
      if Total(LiveAfter(ops, n)) > PeakAfter(ops, n - 1) { top := n; }
    }
  }

  lemma {:induction false} PeakBounds(ops: seq<TraceOp>, n: nat)
    requires n <= |ops|
    ensures 0 <= PeakAfter(ops, n) && Total(LiveAfter(ops, n)) <= PeakAfter(ops, n)
  {
    if n == 0 {
    } else {
      PeakBounds(ops, n - 1);
    }
  }
}
