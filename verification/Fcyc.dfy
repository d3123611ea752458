/** The K-best sampler: keeps the `kbest` smallest of the samples seen so far, and stops
    once they have converged. */
module Fcyc {

  import opened Common

  // ---------- sorting by insertion ----------

  /** `x` put into a sorted sequence, after the entries that do not exceed it. */
  function Insert(s: seq<real>, x: real): (r: seq<real>)
    ensures |r| == |s| + 1
  {
    if s == [] then [x] else
    if s[0] > x then [x] + s else [s[0]] + Insert(s[1..], x)
  }

  /** All samples, smallest first. */
  function Ranked(s: seq<real>): (r: seq<real>)
    ensures |r| == |s|
  {
    if s == [] then [] else Insert(Ranked(s[..|s|-1]), s[|s|-1])
  }

  ghost predicate Ascending(s: seq<real>) { forall i, j :: 0 <= i < j < |s| ==> s[i] <= s[j] }

  lemma {:induction false} InsertPermutes(s: seq<real>, x: real)
    ensures multiset(Insert(s, x)) == multiset(s) + multiset{x}
  {
    if s == [] {
    } else {
      assert s == [s[0]] + s[1..];
      if s[0] <= x { InsertPermutes(s[1..], x); }
    }
  }

  lemma PrependAscending(x: real, s: seq<real>)
    requires Ascending(s) && forall j :: 0 <= j < |s| ==> x <= s[j]
    ensures Ascending([x] + s)
  {
    var r := [x] + s;
    forall i, j | 0 <= i < j < |r| ensures r[i] <= r[j] {
      assert r[j] == s[j-1];
    }
  }

  lemma {:induction false} InsertAscending(s: seq<real>, x: real)
    requires Ascending(s)
    ensures Ascending(Insert(s, x))
  {
    if s == [] || s[0] > x {
    } else {
      var r := Insert(s[1..], x);
      InsertAscending(s[1..], x);
      InsertPermutes(s[1..], x);
      forall j | 0 <= j < |r| ensures s[0] <= r[j] {
        assert r[j] in multiset(r);
      }
      PrependAscending(s[0], r);
    }
  }

  lemma {:induction false} RankedSorts(s: seq<real>)
    ensures Ascending(Ranked(s)) && multiset(Ranked(s)) == multiset(s)
  {
    if s == [] {
    } else {
      RankedSorts(s[..|s|-1]);
      InsertAscending(Ranked(s[..|s|-1]), s[|s|-1]);
      InsertPermutes(Ranked(s[..|s|-1]), s[|s|-1]);
      assert s == s[..|s|-1] + [s[|s|-1]];
    }
  }

  lemma SplitTail(s: seq<real>, x: real, k: nat)
    requires 0 < k <= |s|
    ensures [s[0]] + (s[1..][..k-1] + [x] + s[1..][k-1..]) == s[..k] + [x] + s[k..]
  {
    assert s[1..][..k-1] == s[1..k] && s[1..][k-1..] == s[k..];
    assert s[..k] == [s[0]] + s[1..k];
  }

  /** The insertion point decides the result. */
  lemma {:induction false} InsertAt(s: seq<real>, x: real, k: nat)
    requires Ascending(s) && k <= |s| && (k > 0 ==> s[k-1] <= x) && (k < |s| ==> s[k] > x)
    ensures Insert(s, x) == s[..k] + [x] + s[k..]
  {
    if k == 0 {
      assert s[..0] + [x] + s[0..] == [x] + s;
    } else {
      assert s[0] <= x;
      InsertAt(s[1..], x, k - 1);
      SplitTail(s, x, k);
    }
  }

  /** The first `k` entries after an insertion depend on the first `k` before it. */
  lemma {:induction false} InsertPrefix(s: seq<real>, x: real, k: nat)
    requires k <= |s|
    ensures Insert(s, x)[..k] == Insert(s[..k], x)[..k]
  {
    if s == [] || k == 0 {
    } else {
      assert s[..k][0] == s[0] && s[..k][1..] == s[1..][..k-1];
      if s[0] > x {
        assert ([x] + s)[..k] == [x] + s[..k-1];
        assert ([x] + s[..k])[..k] == [x] + s[..k-1];
      } else {
        InsertPrefix(s[1..], x, k - 1);
        assert ([s[0]] + Insert(s[1..], x))[..k] == [s[0]] + Insert(s[1..], x)[..k-1];
        assert ([s[0]] + Insert(s[1..][..k-1], x))[..k] == [s[0]] + Insert(s[1..][..k-1], x)[..k-1];
      }
    }
  }

  /** The `k` smallest samples, smallest first. */
  ghost function Best(s: seq<real>, k: nat): seq<real> { Ranked(s)[..Min(k, |s|)] }

  /** What `Best` means: sorted, taken from the samples, and nothing left out is smaller. */
  lemma BestAreSmallest(s: seq<real>, k: nat)
    ensures var b, rest := Best(s, k), Ranked(s)[Min(k, |s|)..];
      && |b| == Min(k, |s|) && Ascending(b) && multiset(b) + multiset(rest) == multiset(s)
      && forall x, y :: x in b && y in rest ==> x <= y
  {
    RankedSorts(s);
    var r, n := Ranked(s), Min(k, |s|);
    assert r == r[..n] + r[n..];
    PrefixBelow(r, n);
  }

  lemma PrefixBelow(r: seq<real>, n: nat)
    requires Ascending(r) && n <= |r|
    ensures forall x, y :: x in r[..n] && y in r[n..] ==> x <= y
  {
    forall x, y | x in r[..n] && y in r[n..] ensures x <= y {
      var i :| 0 <= i < n && r[i] == x;
      var j :| n <= j < |r| && r[j] == y;
    }
  }

  /** One more sample: the best so far are enough to find the best afterwards. */
  lemma BestNext(s: seq<real>, x: real, k: nat)
    ensures Best(s + [x], k) == Insert(Best(s, k), x)[..Min(k, |s| + 1)]
  {
    assert (s + [x])[..|s|] == s;
    if k <= |s| {
      InsertPrefix(Ranked(s), x, k);
    } else {
      assert Best(s, k) == Ranked(s);
    }
  }

  /** The best have converged: there are `k` of them and they are within `epsilon`. */
  ghost predicate Converged(s: seq<real>, k: nat, epsilon: real)
    requires k > 0
  {
    |s| >= k && (1.0 + epsilon) * Ranked(s)[0] >= Ranked(s)[k-1]
  }

  lemma SmallestFirst(s: seq<real>)
    requires s != []
    ensures Ranked(s)[0] in s && forall x :: x in s ==> Ranked(s)[0] <= x
  {
    RankedSorts(s);
    assert Ranked(s)[0] in multiset(s);
    forall x | x in s ensures Ranked(s)[0] <= x {
      assert x in multiset(Ranked(s));
      var i :| 0 <= i < |s| && Ranked(s)[i] == x;
    }
  }

  lemma LastIsLargest(s: seq<real>, k: nat, bound: real)
    requires 0 < k <= |s|
    ensures Ranked(s)[k-1] <= bound <==> forall x :: x in Best(s, k) ==> x <= bound
  {
    hide Ranked;
    RankedSorts(s);
    var r, b := Ranked(s), Best(s, k);
    assert b == r[..k] && b[k-1] == r[k-1];
    if r[k-1] <= bound {
      forall x | x in b ensures x <= bound {
        var i :| 0 <= i < k && b[i] == x;
      }
    } else {
      assert b[k-1] in b;
    }
  }

  /** Converged means that there are enough samples and that the best of them all lie within
      `epsilon` of the smallest. */
  lemma ConvergedMeans(s: seq<real>, k: nat, epsilon: real, least: real)
    requires k > 0 && least in s && forall x :: x in s ==> least <= x
    ensures Converged(s, k, epsilon) <==> |s| >= k && forall x :: x in Best(s, k) ==> x <= (1.0 + epsilon) * least
  {
    hide Ranked, Best;
    SmallestFirst(s);
    assert Ranked(s)[0] == least;
    if |s| >= k { LastIsLargest(s, k, (1.0 + epsilon) * least); }
  }

  // ---------- the sampler ----------

  class Sampler {
    const kbest: nat
    const maxsamples: int
    const epsilon: real
    var values: array<real>
    var samplecount: nat
    ghost var seen: seq<real>

    /** The best samples are those of the samples seen since `init_sampler`. */
    ghost predicate Valid()
      reads this, values
    {
      && kbest > 0 && values.Length == kbest && samplecount == |seen|
      && values[..Min(kbest, samplecount)] == Best(seen, kbest)
    }

    constructor (k: nat, max: int, eps: real)
      requires k > 0
      ensures Valid() && kbest == k && maxsamples == max && epsilon == eps && seen == [] && fresh(values)
    {
      kbest, maxsamples, epsilon := k, max, eps;
      values := new real[k](_ => 0.0);
      samplecount := 0;
      seen := [];
    }

    method InitSampler()
      requires kbest > 0
      modifies this
      ensures Valid() && seen == [] && fresh(values)
    {
      values := new real[kbest](_ => 0.0);
      samplecount := 0;
      seen := [];
    }

    method AddSample(val: real)
      requires Valid()
      modifies this`samplecount, this`seen, values
      ensures Valid() && seen == old(seen) + [val]
    {
      ghost var best := Best(seen, kbest);
      BestNext(seen, val, kbest);
      BestAreSmallest(seen, kbest);
      Place(val, best);
      samplecount := samplecount + 1;
      seen := seen + [val];
    }

    /** Where a new value goes: at the end, over the largest one kept, or nowhere. */
    method Place(val: real, ghost best: seq<real>)
      requires kbest > 0 && values.Length == kbest && Ascending(best)
      requires |best| == Min(kbest, samplecount) && values[..|best|] == best
      modifies values
      ensures values[..Min(kbest, samplecount + 1)] == Insert(best, val)[..Min(kbest, samplecount + 1)]
    {
      if samplecount < kbest {
        values[samplecount] := val;
        Sift(samplecount, best);
      } else if val < values[kbest-1] {
        KeepBelow(best, val);
        values[kbest-1] := val;
        Sift(kbest - 1, best[..kbest-1]);
      } else {
        assert best[kbest-1] == values[kbest-1];
        InsertAt(best, val, kbest);
      }
    }

    /** The insertion loop of `add_sample`: the last of the first `top + 1` values moves down
        to its place. */
    method Sift(top: nat, ghost best: seq<real>)
      requires top < values.Length && values[..top] == best && Ascending(best)
      modifies values
      ensures values[..top+1] == Insert(best, old(values[top]))
      ensures forall k :: top < k < values.Length ==> values[k] == old(values[k])
    {
      hide Insert;
      ghost var val := values[top];
      var pos := top;
      while pos > 0 && values[pos-1] > values[pos]
        invariant 0 <= pos <= top && values[pos] == val
        invariant forall k :: 0 <= k < pos ==> values[k] == best[k]
        invariant forall k :: pos < k <= top ==> values[k] == best[k-1]
        invariant pos < top ==> best[pos] > val
        invariant forall k :: top < k < values.Length ==> values[k] == old(values[k])
      {
        var temp := values[pos-1];
        values[pos-1] := values[pos];
        values[pos] := temp;
        pos := pos - 1;
      }
      InsertAt(best, val, pos);
      assert values[..top+1] == best[..pos] + [val] + best[pos..];
    }

    method HasConverged() returns (r: bool)
      requires Valid()
      ensures r == Converged(seen, kbest, epsilon)
    {
      if samplecount >= kbest {
        assert values[0] == values[..kbest][0] && values[kbest-1] == values[..kbest][kbest-1];
      }
      r := samplecount >= kbest && (1.0 + epsilon) * values[0] >= values[kbest-1];
    }

    /** `fcyc` on a stream of measurements: it stops at the first sample after which the
        best have converged, at the latest after `maxsamples` (or one, if that is less),
        and returns the smallest sample it took. */
    method Fcyc(cycles: seq<real>) returns (result: real, taken: nat)
      requires kbest > 0 && |cycles| >= 1 && |cycles| >= maxsamples
      modifies this
      ensures 1 <= taken <= |cycles| && (taken == 1 || taken <= maxsamples)
      ensures result in cycles[..taken] && forall x :: x in cycles[..taken] ==> result <= x
      ensures Converged(cycles[..taken], kbest, epsilon) || taken >= maxsamples
      ensures forall n :: 1 <= n < taken ==> !Converged(cycles[..n], kbest, epsilon)
    {
      hide Insert, Ranked;
      InitSampler();
      AddSample(cycles[0]);
      taken := 1;
      var done := HasConverged();
      while !done && samplecount < maxsamples
        invariant Valid() && fresh(values) && 1 <= taken <= |cycles| && taken == samplecount
        invariant taken == 1 || taken <= maxsamples
        invariant seen == cycles[..taken] && done == Converged(cycles[..taken], kbest, epsilon)
        invariant forall n :: 1 <= n < taken ==> !Converged(cycles[..n], kbest, epsilon)
        decreases maxsamples - taken
      {
        AddSample(cycles[taken]);
        assert cycles[..taken] + [cycles[taken]] == cycles[..taken+1];
        taken := taken + 1;
        done := HasConverged();
      }
      result := values[0];
      SmallestFirst(cycles[..taken]);
      assert result == values[..Min(kbest, taken)][0];
    }
  }

  /** A sample below the largest kept one pushes that one out. */
  lemma {:induction false} KeepBelow(best: seq<real>, val: real)
    requires Ascending(best) && |best| > 0 && val < best[|best|-1]
    ensures Insert(best, val)[..|best|] == Insert(best[..|best|-1], val)
  {
    var n := |best|;
    if best[0] > val {
      assert ([val] + best)[..n] == [val] + best[..n-1];
    } else {
      KeepBelow(best[1..], val);
      assert best[..n-1][1..] == best[1..][..n-2];
      assert ([best[0]] + Insert(best[1..], val))[..n] == [best[0]] + Insert(best[1..], val)[..n-1];
    }
  }
}
