/** The range list of the malloc driver: the extents of the live payloads. */
module Ranges {

  import opened Bits
  import opened MemLib

  datatype Range = Range(lo: int, hi: int)

  /** An endpoint of the new range lies in the old one; this is all `add_range` tests. */
  predicate EndpointInside(lo: int, hi: int, r: Range) {
    r.lo <= lo <= r.hi || r.lo <= hi <= r.hi
  }

  /** `add_range` takes the range `[lo, hi]`. */
  ghost predicate Acceptable(start: int, brk: int, ranges: seq<Range>, lo: int, hi: int) {
    && Aligned(lo) && start <= lo < brk && start <= hi < brk
    && (forall k :: 0 <= k < |ranges| ==> !EndpointInside(lo, hi, ranges[k]))
  }

  /** Every range disjoint from the old ones passes the overlap test; one that surrounds an
      old range passes it too. */
  lemma DisjointAccepted(lo: int, hi: int, r: Range)
    requires lo <= hi && r.lo <= r.hi
    ensures !EndpointInside(lo, hi, r) <==> hi < r.lo || r.hi < lo || (lo < r.lo && r.hi < hi)
  {
  }

  /** A range that `add_range` takes although it overlaps one of the list. */
  lemma SurroundingAccepted(start: int)
    requires Aligned(start)
    ensures var inner, lo, hi := Range(start + 8, start + 15), start, start + 31;
      Acceptable(start, start + 64, [inner], lo, hi) && lo <= inner.lo && inner.hi <= hi
  {
  }

  /** The list without its first range that starts at `lo`. */
  function RemoveFirst(s: seq<Range>, lo: int): seq<Range> {
    if s == [] then [] else
    if s[0].lo == lo then s[1..] else [s[0]] + RemoveFirst(s[1..], lo)
  }

  lemma {:induction false} RemoveFirstAt(s: seq<Range>, lo: int, k: nat)
    requires k < |s| && s[k].lo == lo
    requires forall i :: 0 <= i < k ==> s[i].lo != lo
    ensures RemoveFirst(s, lo) == s[..k] + s[k+1..]
  {
    if k == 0 {
    } else {
      RemoveFirstAt(s[1..], lo, k - 1);
      assert s[..k] + s[k+1..] == [s[0]] + (s[1..][..k-1] + s[1..][k..]);
    }
  }

  lemma {:induction false} RemoveFirstNone(s: seq<Range>, lo: int)
    requires forall i :: 0 <= i < |s| ==> s[i].lo != lo
    ensures RemoveFirst(s, lo) == s
  {
    if s == [] {
    } else {
      RemoveFirstNone(s[1..], lo);
    }
  }

  class RangeList {
    var ranges: seq<Range>

    constructor ()
      ensures ranges == []
    {
      ranges := [];
    }

    method Add(m: Memory, lo: int, size: int) returns (ok: int)
      requires size > 0
      modifies this
      ensures ok == if Acceptable(m.start, m.brk, old(ranges), lo, lo + size - 1) then 1 else 0
      ensures ok == 1 <==>
                && lo % 8 == 0 && m.start <= lo && lo + size <= m.brk
                && forall r :: r in old(ranges) ==>
                     !(r.lo <= lo <= r.hi) && !(r.lo <= lo + size - 1 <= r.hi)
      ensures ranges == if ok == 1 then [Range(lo, lo + size - 1)] + old(ranges) else old(ranges)
    {
      var hi := lo + size - 1;
      AlignedMod(lo);
      if lo % 8 != 0 { return 0; }
      var heapLo := m.HeapLo();
      var heapHi := m.HeapHi();
      if lo < heapLo || lo > heapHi || hi < heapLo || hi > heapHi { return 0; }
      var k := 0;
      while k < |ranges|
        invariant 0 <= k <= |ranges|
        invariant forall i :: 0 <= i < k ==> !EndpointInside(lo, hi, ranges[i])
      {
        if EndpointInside(lo, hi, ranges[k]) { return 0; }
        k := k + 1;
      }
      ranges := [Range(lo, hi)] + ranges;
      return 1;
    }

    method Remove(lo: int)
      modifies this
      ensures ranges == RemoveFirst(old(ranges), lo)
    {
      var k := 0;
      while k < |ranges|
        invariant 0 <= k <= |ranges| && ranges == old(ranges)
        invariant forall i :: 0 <= i < k ==> ranges[i].lo != lo
      {
        if ranges[k].lo == lo {
          RemoveFirstAt(ranges, lo, k);
          ranges := ranges[..k] + ranges[k+1..];
          return;
        }
        k := k + 1;
      }
      RemoveFirstNone(ranges, lo);
    }

    method Clear()
      modifies this
      ensures ranges == []
    {
      while ranges != []
        decreases |ranges|
      {
        ranges := ranges[1..];
      }
    }
  }
}
