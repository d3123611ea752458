/** Bubble sort of an integer array under a caller's comparator. */
module BubbleSort {

  import opened Common

  type Compare = (int, int) -> int

  // ---------- what the two loops compute ----------

  /** `s` with the entries at `j - 1` and `j` exchanged. */
  function Swapped(s: seq<int>, j: nat): (r: seq<int>)
    requires 0 < j < |s|
    ensures |r| == |s|
  {
    s[j-1 := s[j]][j := s[j-1]]
  }

  /** `s` after comparing the pairs that end at positions 1 to `j`. */
  function Bubbled(s: seq<int>, cmp: Compare, j: nat): (r: seq<int>)
    requires j < |s|
    ensures |r| == |s|
  {
    if j == 0 then s else
    var r := Bubbled(s, cmp, j - 1);
    if cmp(r[j-1], r[j]) > 0 then Swapped(r, j) else r
  }

  /** `s` after `i` passes. */
  function Passes(s: seq<int>, cmp: Compare, i: nat): (r: seq<int>)
    ensures |r| == |s|
  {
    if i == 0 || s == [] then s else Bubbled(Passes(s, cmp, i - 1), cmp, |s| - 1)
  }

  function Sort(s: seq<int>, cmp: Compare): seq<int> { Passes(s, cmp, |s|) }

  method BubbleSort(numbers: array<int>, count: nat, cmp: Compare) returns (target: array<int>)
    requires count <= numbers.Length
    ensures fresh(target) && target[..] == Sort(numbers[..count], cmp)
    ensures numbers[..] == old(numbers[..])
  {
    target := new int[count](k requires 0 <= k < count reads numbers => numbers[k]);
    ghost var s := numbers[..count];
    assert target[..] == s;
    var i := 0;
    while i < count
      invariant 0 <= i <= count && target[..] == Passes(s, cmp, i)
    {
      ghost var before := target[..];
      var j := 0;
      while j < count - 1
        invariant 0 <= j < count && target[..] == Bubbled(before, cmp, j)
      {
        if cmp(target[j], target[j+1]) > 0 {
          var temp := target[j+1];
          target[j+1] := target[j];
          target[j] := temp;
        }
        j := j + 1;
        assert target[..] == Bubbled(before, cmp, j);
      }
      i := i + 1;
    }
  }

  // ---------- permutation, for any comparator ----------

  lemma SwapPermutes(s: seq<int>, j: nat)
    requires 0 < j < |s|
    ensures multiset(Swapped(s, j)) == multiset(s)
  {
    var x, y, lo, hi := s[j-1], s[j], s[..j-1], s[j+1..];
    assert s == lo + [x, y] + hi && s[j-1 := y][j := x] == lo + [y, x] + hi;
    assert multiset([x, y]) == multiset([y, x]);
  }

  lemma {:induction false} BubbledPermutes(s: seq<int>, cmp: Compare, j: nat)
    requires j < |s|
    ensures multiset(Bubbled(s, cmp, j)) == multiset(s)
  {
    hide Swapped;
    if j == 0 {
    } else {
      BubbledPermutes(s, cmp, j - 1);
      SwapPermutes(Bubbled(s, cmp, j - 1), j);
    }
  }

  lemma {:induction false} PassesPermute(s: seq<int>, cmp: Compare, i: nat)
    ensures multiset(Passes(s, cmp, i)) == multiset(s)
  {
    hide Bubbled;
    if i == 0 || s == [] {
    } else {
      PassesPermute(s, cmp, i - 1);
      BubbledPermutes(Passes(s, cmp, i - 1), cmp, |s| - 1);
    }
  }

  /** The result holds the same numbers as the input, whatever the comparator does. */
  lemma SortPermutes(s: seq<int>, cmp: Compare)
    ensures multiset(Sort(s, cmp)) == multiset(s)
  {
    PassesPermute(s, cmp, |s|);
  }

  // ---------- order, for total preorders ----------

  predicate Leq(cmp: Compare, a: int, b: int) { cmp(a, b) <= 0 }

  /** Any two numbers compare one way or the other, and the order is transitive. */
  ghost predicate Preorder(cmp: Compare) {
    && (forall a, b :: Leq(cmp, a, b) || Leq(cmp, b, a))
    && (forall a, b, c :: Leq(cmp, a, b) && Leq(cmp, b, c) ==> Leq(cmp, a, c))
  }

  ghost predicate Sorted(s: seq<int>, cmp: Compare) {
    forall a, b :: 0 <= a < b < |s| ==> Leq(cmp, s[a], s[b])
  }

  /** The last `i` positions, and position `m`, hold numbers no smaller than any before. */
  ghost predicate Settled(s: seq<int>, cmp: Compare, i: int, m: int) {
    forall a, b :: 0 <= a < b < |s| && (b >= |s| - i || b == m) ==> Leq(cmp, s[a], s[b])
  }

  /** Within a pass the largest number so far moves up with `j`, until the settled part. */
  lemma {:induction false} BubbledSettles(s: seq<int>, cmp: Compare, i: nat, j: nat)
    requires Preorder(cmp) && j < |s| && i < |s| && Settled(s, cmp, i, 0)
    ensures Settled(Bubbled(s, cmp, j), cmp, i, Min(j, |s| - 1 - i))
  {
    if j == 0 {
    } else {
      BubbledSettles(s, cmp, i, j - 1);
      var r := Bubbled(s, cmp, j - 1);
      SwapSettles(r, cmp, i, j);
    }
  }

  lemma SwapSettles(r: seq<int>, cmp: Compare, i: nat, j: nat)
    requires Preorder(cmp) && 0 < j < |r| && i < |r| && Settled(r, cmp, i, Min(j - 1, |r| - 1 - i))
    ensures var t := if cmp(r[j-1], r[j]) > 0 then Swapped(r, j) else r;
      Settled(t, cmp, i, Min(j, |r| - 1 - i))
  {
    if Leq(cmp, r[j-1], r[j]) {
      forall a | 0 <= a < j ensures j <= |r| - 1 - i ==> Leq(cmp, r[a], r[j]) {
        if a < j - 1 && j <= |r| - 1 - i { assert Leq(cmp, r[a], r[j-1]); }
      }
    } else {
      assert Leq(cmp, r[j], r[j-1]);
      assert j < |r| - i;
    }
  }

  lemma {:induction false} PassesSettle(s: seq<int>, cmp: Compare, i: nat)
    requires Preorder(cmp) && i <= |s|
    ensures Settled(Passes(s, cmp, i), cmp, i, 0)
  {
    if i == 0 {
    } else {
      PassesSettle(s, cmp, i - 1);
      BubbledSettles(Passes(s, cmp, i - 1), cmp, i - 1, |s| - 1);
    }
  }

  /** The result is sorted, for every total preorder. */
  lemma SortSorts(s: seq<int>, cmp: Compare)
    requires Preorder(cmp)
    ensures Sorted(Sort(s, cmp), cmp)
  {
    PassesSettle(s, cmp, |s|);
  }

  /** Of two numbers neither of which may come first, each pass swaps them. */
  lemma PairUnsorted(cmp: Compare, a: int, b: int)
    requires !Leq(cmp, a, b) && !Leq(cmp, b, a)
    ensures Sort([a, b], cmp) == [a, b] && !Sorted([a, b], cmp)
  {
    assert Bubbled([a, b], cmp, 1) == [b, a] && Bubbled([b, a], cmp, 1) == [a, b];
    assert Passes([a, b], cmp, 1) == [b, a];
    assert !Leq(cmp, [a, b][0], [a, b][1]);
  }

  lemma {:induction false} OrderedBubbled(s: seq<int>, cmp: Compare, j: nat)
    requires j < |s| && forall k :: 0 < k < |s| ==> Leq(cmp, s[k-1], s[k])
    ensures Bubbled(s, cmp, j) == s
  {
    if j == 0 {
    } else {
      OrderedBubbled(s, cmp, j - 1);
    }
  }

  /** Where all neighbours are in order, the sort changes nothing. */
  lemma {:induction false} OrderedStays(s: seq<int>, cmp: Compare, i: nat)
    requires forall k :: 0 < k < |s| ==> Leq(cmp, s[k-1], s[k])
    ensures Passes(s, cmp, i) == s
  {
    if i == 0 || s == [] {
    } else {
      OrderedStays(s, cmp, i - 1);
      OrderedBubbled(s, cmp, |s| - 1);
    }
  }

  /** So three numbers stay as they are even if the first must not come before the last. */
  lemma TripleUnsorted(cmp: Compare, a: int, b: int, c: int)
    requires Leq(cmp, a, b) && Leq(cmp, b, c) && !Leq(cmp, a, c)
    ensures Sort([a, b, c], cmp) == [a, b, c] && !Sorted([a, b, c], cmp)
  {
    var s := [a, b, c];
    OrderedStays(s, cmp, |s|);
    assert !Leq(cmp, s[0], s[2]);
  }

  /** The sort sorts every input if and only if the comparator is a total preorder. */
  lemma SortsExactly(cmp: Compare)
    ensures Preorder(cmp) <==> forall s :: Sorted(Sort(s, cmp), cmp)
  {
    if Preorder(cmp) {
      forall s ensures Sorted(Sort(s, cmp), cmp) { SortSorts(s, cmp); }
    } else if a, b :| !Leq(cmp, a, b) && !Leq(cmp, b, a) {
      PairUnsorted(cmp, a, b);
      assert !Sorted(Sort([a, b], cmp), cmp);
    } else {
      var a, b, c :| Leq(cmp, a, b) && Leq(cmp, b, c) && !Leq(cmp, a, c);
      TripleUnsorted(cmp, a, b, c);
      assert !Sorted(Sort([a, b, c], cmp), cmp);
    }
  }

  // ---------- stability ----------

  predicate Same(cmp: Compare, a: int, b: int) { Leq(cmp, a, b) && Leq(cmp, b, a) }

  /** The entries of `s` that the comparator does not tell from `v`, in order. */
  function Class(s: seq<int>, cmp: Compare, v: int): seq<int> {
    if s == [] then [] else (if Same(cmp, s[0], v) then [s[0]] else []) + Class(s[1..], cmp, v)
  }

  lemma {:induction false} ClassConcat(s: seq<int>, t: seq<int>, cmp: Compare, v: int)
    ensures Class(s + t, cmp, v) == Class(s, cmp, v) + Class(t, cmp, v)
  {
    hide Same;
    if s == [] {
      assert s + t == t;
    } else {
      ClassConcat(s[1..], t, cmp, v);
      var first := if Same(cmp, s[0], v) then [s[0]] else [];
      assert Class(s + t, cmp, v) == first + Class(s[1..] + t, cmp, v) by {
        assert (s + t)[0] == s[0] && (s + t)[1..] == s[1..] + t;
      }
      Regroup(first, Class(s[1..], cmp, v), Class(t, cmp, v));
    }
  }

  lemma Regroup(a: seq<int>, b: seq<int>, c: seq<int>)
    ensures a + (b + c) == (a + b) + c
  {
  }

  lemma ClassPair(x: int, y: int, cmp: Compare, v: int)
    requires !(Same(cmp, x, v) && Same(cmp, y, v))
    ensures Class([x, y], cmp, v) == Class([y, x], cmp, v)
  {
    assert [x, y][1..] == [y] && [y, x][1..] == [x];
    assert Class([y], cmp, v) == if Same(cmp, y, v) then [y] else [];
    assert Class([x], cmp, v) == if Same(cmp, x, v) then [x] else [];
  }

  lemma ClassSwap(s: seq<int>, cmp: Compare, v: int, j: nat)
    requires Preorder(cmp) && 0 < j < |s| && cmp(s[j-1], s[j]) > 0
    ensures Class(Swapped(s, j), cmp, v) == Class(s, cmp, v)
  {
    var x, y, lo, hi := s[j-1], s[j], s[..j-1], s[j+1..];
    assert !Leq(cmp, x, y);
    assert s == lo + ([x, y] + hi) && s[j-1 := y][j := x] == lo + ([y, x] + hi);
    ClassConcat(lo, [x, y] + hi, cmp, v);
    ClassConcat([x, y], hi, cmp, v);
    ClassConcat(lo, [y, x] + hi, cmp, v);
    ClassConcat([y, x], hi, cmp, v);
    ClassPair(x, y, cmp, v);
  }

  lemma {:induction false} BubbledStable(s: seq<int>, cmp: Compare, j: nat, v: int)
    requires Preorder(cmp) && j < |s|
    ensures Class(Bubbled(s, cmp, j), cmp, v) == Class(s, cmp, v)
  {
    if j == 0 {
    } else {
      BubbledStable(s, cmp, j - 1, v);
      var r := Bubbled(s, cmp, j - 1);
      if cmp(r[j-1], r[j]) > 0 { ClassSwap(r, cmp, v, j); }
    }
  }

  lemma {:induction false} PassesStable(s: seq<int>, cmp: Compare, i: nat, v: int)
    requires Preorder(cmp)
    ensures Class(Passes(s, cmp, i), cmp, v) == Class(s, cmp, v)
  {
    if i == 0 || s == [] {
    } else {
      PassesStable(s, cmp, i - 1, v);
      BubbledStable(Passes(s, cmp, i - 1), cmp, |s| - 1, v);
    }
  }

  /** Numbers that compare equal keep their order, for every total preorder. */
  lemma SortStable(s: seq<int>, cmp: Compare, v: int)
    requires Preorder(cmp)
    ensures Class(Sort(s, cmp), cmp, v) == Class(s, cmp, v)
  {
    PassesStable(s, cmp, |s|, v);
  }

  // ---------- comparators that are no preorder ----------

  /** Any two of `xs` are exchanged when they meet, in either order, and none of them is
      exchanged with `v`. */
  ghost predicate Turning(xs: seq<int>, v: int, cmp: Compare) {
    && (forall i, j :: 0 <= i < |xs| && 0 <= j < |xs| && i != j ==> cmp(xs[i], xs[j]) > 0)
    && (forall i :: 0 <= i < |xs| ==> cmp(xs[i], v) <= 0)
  }

  lemma BubbledNext(s: seq<int>, cmp: Compare, j: nat, r: seq<int>)
    requires 0 < j < |s| && Bubbled(s, cmp, j - 1) == r
    ensures Bubbled(s, cmp, j) == if cmp(r[j-1], r[j]) > 0 then Swapped(r, j) else r
  {
  }

  lemma CarryOnce(xs: seq<int>, v: int, j: nat)
    requires 0 < j < |xs|
    ensures var r := xs[1..j] + [xs[0]] + xs[j..] + [v];
      r[j-1] == xs[0] && r[j] == xs[j] && Swapped(r, j) == xs[1..j+1] + [xs[0]] + xs[j+1..] + [v]
  {
  }

  /** A pass carries the first number up through the others. */
  lemma {:induction false} PassCarries(xs: seq<int>, v: int, cmp: Compare, j: nat)
    requires Turning(xs, v, cmp) && j < |xs|
    ensures Bubbled(xs + [v], cmp, j) == xs[1..j+1] + [xs[0]] + xs[j+1..] + [v]
  {
    if j == 0 {
      assert xs + [v] == xs[1..1] + [xs[0]] + xs[1..] + [v];
    } else {
      hide Bubbled, Swapped;
      PassCarries(xs, v, cmp, j - 1);
      CarryOnce(xs, v, j);
      BubbledNext(xs + [v], cmp, j, xs[1..j] + [xs[0]] + xs[j..] + [v]);
    }
  }

  lemma CarriedUp(xs: seq<int>, v: int)
    requires xs != []
    ensures var r := xs[1..] + [xs[0], v];
      xs[1..|xs|] + [xs[0]] + xs[|xs|..] + [v] == r && r[|xs|-1] == xs[0] && r[|xs|] == v
  {
    assert xs[1..|xs|] == xs[1..] && xs[|xs|..] == [];
    assert xs[1..] + [xs[0]] + [] + [v] == xs[1..] + [xs[0], v];
  }

  /** So each pass turns `xs` by one place. */
  lemma PassTurns(xs: seq<int>, v: int, cmp: Compare)
    requires xs != [] && Turning(xs, v, cmp)
    ensures Bubbled(xs + [v], cmp, |xs|) == xs[1..] + [xs[0], v]
  {
    hide Bubbled;
    PassCarries(xs, v, cmp, |xs| - 1);
    var r := xs[1..] + [xs[0], v];
    CarriedUp(xs, v);
    BubbledNext(xs + [v], cmp, |xs|, r);
  }

  lemma TurningRound(xs: seq<int>, v: int, cmp: Compare, k: nat)
    requires Turning(xs, v, cmp) && k <= |xs|
    ensures Turning(xs[k..] + xs[..k], v, cmp)
  {
    var r, n := xs[k..] + xs[..k], |xs| - k;
    assert forall i :: 0 <= i < |r| ==> r[i] == xs[if i < n then i + k else i - n];
  }

  lemma TurnOnce(xs: seq<int>, v: int, i: nat)
    requires 0 < i <= |xs|
    ensures var r := xs[i-1..] + xs[..i-1]; r[1..] + [r[0], v] == xs[i..] + xs[..i] + [v]
  {
    var r := xs[i-1..] + xs[..i-1];
    assert r[0] == xs[i-1] && r[1..] == xs[i..] + xs[..i-1];
    assert xs[..i] == xs[..i-1] + [xs[i-1]];
  }

  lemma {:induction false} PassesTurn(xs: seq<int>, v: int, cmp: Compare, i: nat)
    requires xs != [] && Turning(xs, v, cmp) && i <= |xs|
    ensures Passes(xs + [v], cmp, i) == xs[i..] + xs[..i] + [v]
  {
    hide Turning, Bubbled;
    if i == 0 {
      assert xs[0..] + xs[..0] + [v] == xs + [v];
    } else {
      PassesTurn(xs, v, cmp, i - 1);
      var r := xs[i-1..] + xs[..i-1];
      TurningRound(xs, v, cmp, i - 1);
      PassTurns(r, v, cmp);
      TurnOnce(xs, v, i);
    }
  }

  /** There are as many passes as numbers: `xs` comes all the way round and turns once more. */
  lemma SortTurns(xs: seq<int>, v: int, cmp: Compare)
    requires xs != [] && Turning(xs, v, cmp)
    ensures Sort(xs + [v], cmp) == xs[1..] + [xs[0], v]
  {
    hide Turning, Bubbled;
    PassesTurn(xs, v, cmp, |xs|);
    assert xs[|xs|..] + xs[..|xs|] + [v] == xs + [v];
    PassTurns(xs, v, cmp);
  }

  // ---------- the three comparators ----------

  function Bit(b: bool): int { if b then 1 else 0 }

  function SortedOrder(a: int, b: int): int { Bit(a > b) - Bit(a < b) }

  function ReverseOrder(a: int, b: int): int { Bit(a < b) - Bit(a > b) }

  /** The remainder of C, which takes the sign of `a`. */
  function Remainder(a: int, b: int): int
    requires b != 0
  {
    var x, y := if a < 0 then -a else a, if b < 0 then -b else b;
    if a < 0 then -(x % y) else x % y
  }

  function StrangeOrder(a: int, b: int): int { if a == 0 || b == 0 then 0 else Remainder(a, b) }

  /** `strange_order` is the remainder of a division that rounds towards zero, and 0 where there
      is none. */
  lemma StrangeIsRemainder(a: int, b: int) returns (q: int)
    ensures a == 0 || b == 0 ==> StrangeOrder(a, b) == 0
    ensures b != 0 ==>
              var r, size := StrangeOrder(a, b), if b < 0 then -b else b;
              a == q * b + r && -size < r < size && (r == 0 || (r < 0 <==> a < 0))
  {
    q := 0;
    if a != 0 && b != 0 {
      var x, y := if a < 0 then -a else a, if b < 0 then -b else b;
      q := if (a < 0) == (b < 0) then x / y else -(x / y);
      Division(x, y);
    }
  }

  lemma Division(x: nat, y: nat)
    requires y > 0
    ensures x == x / y * y + x % y && 0 <= x % y < y
  {
  }

  lemma OrdersArePreorders()
    ensures Preorder(SortedOrder) && Preorder(ReverseOrder)
    ensures forall a, b :: Leq(SortedOrder, a, b) <==> a <= b
    ensures forall a, b :: Leq(ReverseOrder, a, b) <==> a >= b
  {
  }

  function Reverse(s: seq<int>): (r: seq<int>)
    ensures |r| == |s|
  {
    if s == [] then [] else Reverse(s[1..]) + [s[0]]
  }

  lemma {:induction false} ReverseAt(s: seq<int>, k: nat)
    requires k < |s|
    ensures Reverse(s)[k] == s[|s| - 1 - k]
  {
    if k == |s| - 1 {
    } else {
      ReverseAt(s[1..], k);
    }
  }

  lemma {:induction false} ReversePermutes(s: seq<int>)
    ensures multiset(Reverse(s)) == multiset(s)
  {
    if s == [] {
    } else {
      ReversePermutes(s[1..]);
      assert s == [s[0]] + s[1..];
    }
  }

  ghost predicate Ascending(s: seq<int>) { forall a, b :: 0 <= a < b < |s| ==> s[a] <= s[b] }

  lemma TailMultiset(s: seq<int>)
    requires s != []
    ensures multiset(s[1..]) == multiset(s) - multiset{s[0]} && s[0] in multiset(s)
  {
    assert s == [s[0]] + s[1..];
  }

  lemma FirstIsLeast(s: seq<int>, x: int)
    requires Ascending(s) && x in multiset(s)
    ensures s[0] <= x
  {
    var i :| 0 <= i < |s| && s[i] == x;
  }

  lemma SameLength(s: seq<int>, t: seq<int>)
    requires multiset(s) == multiset(t)
    ensures |s| == |t|
  {
    assert |multiset(s)| == |s| && |multiset(t)| == |t|;
  }

  lemma {:induction false} AscendingUnique(s: seq<int>, t: seq<int>)
    requires Ascending(s) && Ascending(t) && multiset(s) == multiset(t)
    ensures s == t
  {
    SameLength(s, t);
    if s == [] {
    } else {
      TailsMatch(s, t);
      AscendingUnique(s[1..], t[1..]);
      assert s == [s[0]] + s[1..] && t == [t[0]] + t[1..];
    }
  }

  lemma TailsMatch(s: seq<int>, t: seq<int>)
    requires s != [] && t != [] && Ascending(s) && Ascending(t) && multiset(s) == multiset(t)
    ensures s[0] == t[0] && multiset(s[1..]) == multiset(t[1..])
  {
    TailMultiset(s);
    TailMultiset(t);
    FirstIsLeast(s, t[0]);
    FirstIsLeast(t, s[0]);
  }

  lemma {:induction false} ReverseTwice(s: seq<int>)
    ensures Reverse(Reverse(s)) == s
  {
    forall k | 0 <= k < |s| ensures Reverse(Reverse(s))[k] == s[k] {
      ReverseAt(Reverse(s), k);
      ReverseAt(s, |s| - 1 - k);
    }
  }

  lemma DescendingReversed(s: seq<int>)
    requires Sorted(s, ReverseOrder)
    ensures Ascending(Reverse(s))
  {
    forall a, b | 0 <= a < b < |s| ensures Reverse(s)[a] <= Reverse(s)[b] {
      ReverseAt(s, a);
      ReverseAt(s, b);
      assert Leq(ReverseOrder, s[|s| - 1 - b], s[|s| - 1 - a]);
    }
  }

  lemma SortedAscends(s: seq<int>)
    requires Sorted(s, SortedOrder)
    ensures Ascending(s)
  {
    forall a, b | 0 <= a < b < |s| ensures s[a] <= s[b] { assert Leq(SortedOrder, s[a], s[b]); }
  }

  /** Sorting in reverse order gives exactly the reverse of sorting in order. */
  lemma ReverseOrderReverses(s: seq<int>)
    ensures Sort(s, ReverseOrder) == Reverse(Sort(s, SortedOrder))
  {
    var up, down := Sort(s, SortedOrder), Sort(s, ReverseOrder);
    OrdersArePreorders();
    SortSorts(s, SortedOrder);
    SortSorts(s, ReverseOrder);
    SortPermutes(s, SortedOrder);
    SortPermutes(s, ReverseOrder);
    SortedAscends(up);
    DescendingReversed(down);
    ReversePermutes(down);
    AscendingUnique(Reverse(down), up);
    ReverseTwice(down);
  }

  /** `strange_order` is no preorder, so some input stays unsorted under it: 5 and 3. */
  lemma StrangeOrderFails()
    ensures !Preorder(StrangeOrder) && !forall s :: Sorted(Sort(s, StrangeOrder), StrangeOrder)
    ensures Sort([5, 3], StrangeOrder) == [5, 3] && !Sorted([5, 3], StrangeOrder)
  {
    assert !Leq(StrangeOrder, 3, 5) && !Leq(StrangeOrder, 5, 3);
    PairUnsorted(StrangeOrder, 5, 3);
    SortsExactly(StrangeOrder);
  }

  /** Under it two numbers turn round below a third. */
  lemma StrangeOrderTurns()
    ensures Sort([5, 3, 1], StrangeOrder) == [3, 5, 1]
  {
    var xs := [5, 3];
    assert Turning(xs, 1, StrangeOrder);
    SortTurns(xs, 1, StrangeOrder);
    assert xs + [1] == [5, 3, 1] && xs[1..] + [xs[0], 1] == [3, 5, 1];
  }
}
