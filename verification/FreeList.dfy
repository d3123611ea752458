/** The free list as a sequence of distinct addresses. */
module FreeList {

  ghost predicate Distinct(s: seq<int>) {
    forall i, j :: 0 <= i < j < |s| ==> s[i] != s[j]
  }

  lemma PushDistinct(s: seq<int>, x: int)
    requires Distinct(s) && x !in s
    ensures Distinct([x] + s)
  {
    var r := [x] + s;
    forall i, j | 0 <= i < j < |r| ensures r[i] != r[j] {
      assert r[j] == s[j-1] && s[j-1] in s;
    }
  }

  lemma FirstIn(s: seq<int>)
    requires s != []
    ensures s[0] in s
  {
  }

  lemma {:induction false} DistinctCount(s: seq<int>, keys: set<int>)
    requires Distinct(s) && forall x :: x in s <==> x in keys
    ensures |s| == |keys|
  {
    if s == [] {
      forall x ensures x !in keys { assert x !in s; }
    } else {
      forall x ensures x in s[1..] <==> x in keys - {s[0]} {
        assert x in s <==> x == s[0] || x in s[1..];
        if x in s[1..] { var i :| 0 <= i < |s[1..]| && s[1..][i] == x; }
      }
      DistinctCount(s[1..], keys - {s[0]});
    }
  }

  /** `s` without the entries in `gone`; the others keep their order. */
  function Without(s: seq<int>, gone: set<int>): (r: seq<int>)
    ensures forall a :: a in r <==> a in s && a !in gone
  {
    if s == [] then [] else
    if s[0] in gone then Without(s[1..], gone) else [s[0]] + Without(s[1..], gone)
  }

  lemma {:induction false} WithoutDistinct(s: seq<int>, gone: set<int>)
    requires Distinct(s)
    ensures Distinct(Without(s, gone))
  {
    if s == [] {
    } else {
      WithoutDistinct(s[1..], gone);
    }
  }

  lemma {:induction false} WithoutTwice(s: seq<int>, a: set<int>, b: set<int>)
    ensures Without(Without(s, a), b) == Without(s, a + b)
  {
    if s == [] {
    } else {
      WithoutTwice(s[1..], a, b);
      if s[0] !in a {
        assert ([s[0]] + Without(s[1..], a))[1..] == Without(s[1..], a);
      }
    }
  }

  lemma {:induction false} WithoutSame(s: seq<int>, a: set<int>, b: set<int>)
    requires forall x :: x in s ==> (x in a <==> x in b)
    ensures Without(s, a) == Without(s, b)
  {
    if s == [] {
    } else {
      var first := s[0];
      assert first in s;
      WithoutSame(s[1..], a, b);
    }
  }

  lemma {:induction false} WithoutNone(s: seq<int>, gone: set<int>)
    requires forall x :: x in s ==> x !in gone
    ensures Without(s, gone) == s
  {
    if s == [] {
    } else {
      var first := s[0];
      assert first in s;
      WithoutNone(s[1..], gone);
    }
  }

  lemma WithoutThrice(s: seq<int>, a: set<int>, b: set<int>, c: set<int>, all: set<int>)
    requires forall x :: x in s ==> (x in all <==> x in a || x in b || x in c)
    ensures Without(Without(Without(s, a), b), c) == Without(s, all)
  {
    WithoutTwice(s, a, b);
    WithoutTwice(s, a + b, c);
    WithoutSame(s, a + b + c, all);
  }

  /** Taking out one entry of a list without repetitions is cutting at its index. */
  lemma {:induction false} WithoutIndex(s: seq<int>, k: nat)
    requires k < |s| && Distinct(s)
    ensures Without(s, {s[k]}) == s[..k] + s[k+1..]
  {
    if k == 0 {
      WithoutNone(s[1..], {s[0]});
    } else {
      assert s[1..][k-1] == s[k];
      WithoutIndex(s[1..], k - 1);
      assert s[0] != s[k];
      assert s[..k] + s[k+1..] == [s[0]] + (s[1..][..k-1] + s[1..][k..]);
    }
  }
}
