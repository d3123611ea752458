/** The unrolled binary search for the width of a 32-bit two's complement number. */
module HowManyBits {

  import opened Bits

  const SIGN: int := 0x8000_0000

  // ---------- signed operators on 32-bit patterns ----------

  /** The number a bit pattern stands for. */
  function Signed(x: Word): int { if x < SIGN then x else x - WORD_LIMIT }

  function Pattern(v: int): Word
    requires -SIGN <= v < SIGN
  {
    if v >= 0 then v else v + WORD_LIMIT
  }

  /** `v` halved `k` times, rounding down. */
  function Halved(v: int, k: nat): (r: int)
    ensures v >= 0 ==> 0 <= r <= v
    ensures v < 0 ==> v <= r < 0
    decreases k
  {
    if k == 0 then v else Halved(v / 2, k - 1)
  }

  /** `x >> k`, which copies the sign bit. */
  function Shr(x: Word, k: nat): Word { Pattern(Halved(Signed(x), k)) }

  /** `x << k` for the small values shifted here. */
  function Shl(x: Word, k: nat): Word
    requires x <= 1 && k <= 4
  {
    x * (if k == 0 then 1 else if k == 1 then 2 else if k == 2 then 4 else if k == 3 then 8 else 16)
  }

  /** `x + y`. */
  function Plus(x: Word, y: Word): Word { if x + y < WORD_LIMIT then x + y else x + y - WORD_LIMIT }

  /** `!!x`. */
  function NotNot(x: Word): (r: Word)
    ensures r <= 1
  {
    if x != 0 then 1 else 0
  }

  lemma {:induction false} HalvedSmall(v: int, k: nat)
    ensures 0 <= v < Pow2(k) ==> Halved(v, k) == 0
    ensures 0 - Pow2(k) <= v < 0 ==> Halved(v, k) == -1
    ensures v >= Pow2(k) ==> Halved(v, k) > 0
    decreases k
  {
    if k == 0 {
    } else {
      HalvedSmall(v / 2, k - 1);
    }
  }

  // ---------- the number of bits ----------

  /** The number of bits of a natural number, 0 for 0. */
  function BitLen(v: nat): nat { if v == 0 then 0 else 1 + BitLen(v / 2) }

  lemma {:induction false} BitLenBounds(v: nat)
    ensures v < Pow2(BitLen(v)) && (v > 0 ==> v >= Pow2(BitLen(v) - 1))
  {
    if v == 0 {
    } else {
      BitLenBounds(v / 2);
    }
  }

  lemma {:induction false} Pow2Monotone(j: nat, k: nat)
    requires j <= k
    ensures Pow2(j) <= Pow2(k)
  {
    if j == k {
    } else {
      Pow2Monotone(j, k - 1);
    }
  }

  /** One stage of the search: shifting out `k` bits that are not all of the number takes
      `k` off its length. */
  lemma {:induction false} BitLenHalved(v: nat, k: nat)
    requires Halved(v, k) != 0
    ensures BitLen(v) == k + BitLen(Halved(v, k))
  {
    if k == 0 {
    } else {
      BitLenHalved(v / 2, k - 1);
    }
  }

  // ---------- the puzzle ----------

  lemma Pow2Of31()
    ensures Pow2(31) == SIGN && Pow2(32) == WORD_LIMIT
  {
    Pow2Of29();
    assert Pow2(30) == 2 * Pow2(29);
  }

  lemma {:induction false} AndCommutes(x: nat, y: nat)
    ensures And(x, y) == And(y, x)
    decreases x + y
  {
    if x == 0 && y == 0 {
    } else {
      AndCommutes(x / 2, y / 2);
    }
  }

  lemma AllOnes(x: Word, ones: Word)
    requires ones == WORD_LIMIT - 1
    ensures And(ones, x) == x
  {
    Pow2Of31();
    AndOnes(x, 32);
    AndCommutes(x, ones);
  }

  lemma SelectWord(x: Word, mask: Word)
    requires mask == 0 || mask == WORD_LIMIT - 1
    ensures Or(And(Not(mask), x), And(mask, Not(x))) == if mask == 0 then x else Not(x)
  {
    AllOnes(x, WORD_LIMIT - 1);
    AllOnes(Not(x), WORD_LIMIT - 1);
    OrZero(x);
    OrZero(Not(x));
  }

  lemma SignMask(x: Word)
    ensures Plus(Not(And(1, Shr(x, 31))), 1) == if Signed(x) >= 0 then 0 else WORD_LIMIT - 1
  {
    Pow2Of31();
    HalvedSmall(Signed(x), 31);
    AndOne(Shr(x, 31));
  }

  /** `abs`: `x` or, when it is negative, its complement. */
  function Magnitude(x: Word): (r: Word)
    ensures r == if Signed(x) >= 0 then Signed(x) else -Signed(x) - 1
  {
    SignMask(x);
    var absMask := Plus(Not(And(1, Shr(x, 31))), 1);
    SelectWord(x, absMask);
    Or(And(Not(absMask), x), And(absMask, Not(x)))
  }

  /** The shift distances of the five stages. */
  const STAGE1: nat := 16
  const STAGE2: nat := 8
  const STAGE3: nat := 4
  const STAGE4: nat := 2
  const STAGE5: nat := 1

  /** A stage looks at the bits above the low `k`: the length splits, and what is left is
      short whenever the number was. */
  lemma Stage(v: Word, k: nat, s: nat, width: nat)
    requires s <= 4 && Shl(1, s) == k
    requires v < SIGN && v < Pow2(width) && width <= 2 * k
    ensures var res := Shl(NotNot(Shr(v, k)), s);
      res <= k && BitLen(v) == res + BitLen(Shr(v, res)) && Shr(v, res) < SIGN && Shr(v, res) < Pow2(k)
  {
    HalvedSmall(v, k);
    if Shr(v, k) != 0 {
      BitLenHalved(v, k);
      HalvedBelow(v, k, width);
      if width - k < k { Pow2Monotone(if width >= k then width - k else 0, k); }
    }
  }

  lemma {:induction false} HalvedBelow(v: nat, k: nat, width: nat)
    requires v < Pow2(width) && Halved(v, k) != 0
    ensures k < width && Halved(v, k) < Pow2(width - k)
    decreases k
  {
    if k == 0 {
    } else {
      HalvedBelow(v / 2, k - 1, width - 1);
    }
  }

  lemma OneBit(v: nat)
    requires v < Pow2(STAGE5)
    ensures v <= 1 && BitLen(v) == v
  {
    assert Pow2(STAGE5) == 2;
  }

  /** The sum of the five results and the last bit, without the sign bit. */
  function Search(abs: Word): (r: int)
  {
    var res1 := Shl(NotNot(Shr(abs, STAGE1)), 4);
    var abs1 := Shr(abs, res1);
    var res2 := Shl(NotNot(Shr(abs1, STAGE2)), 3);
    var abs2 := Shr(abs1, res2);
    var res3 := Shl(NotNot(Shr(abs2, STAGE3)), 2);
    var abs3 := Shr(abs2, res3);
    var res4 := Shl(NotNot(Shr(abs3, STAGE4)), 1);
    var abs4 := Shr(abs3, res4);
    var res5 := Shl(NotNot(Shr(abs4, STAGE5)), 0);
    var abs5 := Shr(abs4, res5);
    Plus(Plus(Plus(Plus(Plus(res1, res2), res3), res4), res5), abs5)
  }

  function HowManyBits(x: Word): Word { Plus(Search(Magnitude(x)), 1) }

  /** The search counts the bits of every non-negative number. */
  lemma SearchCounts(abs: Word)
    requires abs < SIGN
    ensures Search(abs) == BitLen(abs)
  {
    assert abs < Pow2(2 * STAGE1 - 1) by { Pow2Of31(); }
    Stage(abs, STAGE1, 4, 2 * STAGE1 - 1);
    var res1 := Shl(NotNot(Shr(abs, STAGE1)), 4);
    var abs1 := Shr(abs, res1);
    Stage(abs1, STAGE2, 3, STAGE1);
    var res2 := Shl(NotNot(Shr(abs1, STAGE2)), 3);
    var abs2 := Shr(abs1, res2);
    Stage(abs2, STAGE3, 2, STAGE2);
    var res3 := Shl(NotNot(Shr(abs2, STAGE3)), 2);
    var abs3 := Shr(abs2, res3);
    Stage(abs3, STAGE4, 1, STAGE3);
    var res4 := Shl(NotNot(Shr(abs3, STAGE4)), 1);
    var abs4 := Shr(abs3, res4);
    Stage(abs4, STAGE5, 0, STAGE4);
    var res5 := Shl(NotNot(Shr(abs4, STAGE5)), 0);
    var abs5 := Shr(abs4, res5);
    OneBit(abs5);
    SumOfSix(res1, res2, res3, res4, res5, abs5);
  }

  lemma SumOfSix(a: Word, b: Word, c: Word, d: Word, e: Word, f: Word)
    requires a + b + c + d + e + f < WORD_LIMIT
    ensures Plus(Plus(Plus(Plus(Plus(a, b), c), d), e), f) == a + b + c + d + e + f
  {
  }

  /** `x` fits in `n` bits of two's complement. */
  predicate Fits(x: Word, n: nat) {
    n > 0 && 0 - Pow2(n - 1) <= Signed(x) < Pow2(n - 1)
  }

  lemma FitsFrom(x: Word, v: nat, n: nat)
    requires v == if Signed(x) >= 0 then Signed(x) else -Signed(x) - 1
    ensures Fits(x, n) <==> n >= BitLen(v) + 1
  {
    BitLenBounds(v);
    if n > 0 {
      if n >= BitLen(v) + 1 { Pow2Monotone(BitLen(v), n - 1); }
      else { Pow2Monotone(n - 1, BitLen(v) - 1); }
    }
  }

  /** `howManyBits(x)` is the least width in which `x` fits, for every `x`. */
  lemma LeastWidth(x: Word, n: nat)
    ensures n > 0 && 0 - Pow2(n - 1) <= Signed(x) < Pow2(n - 1) <==> n >= HowManyBits(x)
  {
    var v := Magnitude(x);
    FitsFrom(x, v, n);
    SearchCounts(v);
    Narrow(v);
  }

  lemma Narrow(v: Word)
    requires v < SIGN
    ensures BitLen(v) <= 31
  {
    BitLenBounds(v);
    Pow2Of31();
    if BitLen(v) > 31 { Pow2Monotone(31, BitLen(v) - 1); }
  }

  /** The examples in the description of the puzzle. */
  lemma Examples()
    ensures HowManyBits(12) == 5 && HowManyBits(298) == 10 && HowManyBits(WORD_LIMIT - 5) == 4
    ensures HowManyBits(0) == 1 && HowManyBits(WORD_LIMIT - 1) == 1 && HowManyBits(0x8000_0000) == 32
  {
    assert Pow2(0) == 1 && Pow2(2) == 4 && Pow2(3) == 8 && Pow2(4) == 16;
    assert Pow2(8) == 256 && Pow2(9) == 512;
    Pow2Of31();
    assert Pow2(31) == 2 * Pow2(30);
    ExactWidth(12, 5);
    ExactWidth(298, 10);
    ExactWidth(WORD_LIMIT - 5, 4);
    ExactWidth(0, 1);
    ExactWidth(WORD_LIMIT - 1, 1);
    ExactWidth(0x8000_0000, 32);
  }

  lemma ExactWidth(x: Word, n: nat)
    requires n > 0 && 0 - Pow2(n - 1) <= Signed(x) < Pow2(n - 1)
    requires n > 1 ==> !(0 - Pow2(n - 2) <= Signed(x) < Pow2(n - 2))
    ensures HowManyBits(x) == n
  {
    LeastWidth(x, n);
    LeastWidth(x, n - 1);
  }
}
