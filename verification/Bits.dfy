/** Machine words as naturals below 2^32, the C bit operators on them, and the
    header and alignment macros of the allocator written with those operators. */
module Bits {

  const WORD_LIMIT: int := 0x1_0000_0000

  type Word = x: int | 0 <= x < WORD_LIMIT

  // ---------- alignment ----------

  function Eight(k: int): int { 8 * k }

  function Four(k: int): int { 4 * k }

  /** A multiple of eight. */
  ghost predicate Aligned(x: int) { exists k :: x == Eight(k) }

  /** A multiple of four. */
  ghost predicate WordAligned(x: int) { exists k :: x == Four(k) }

  lemma AlignedMod(x: int)
    ensures Aligned(x) <==> x % 8 == 0
  {
    if x % 8 == 0 { assert x == Eight(x / 8); }
  }

  lemma AlignedSum(a: int, b: int)
    requires Aligned(a) && Aligned(b)
    ensures Aligned(a + b) && Aligned(a - b) && Aligned(b - a)
  {
    var j, k :| a == Eight(j) && b == Eight(k);
    assert a + b == Eight(j + k) && a - b == Eight(j - k) && b - a == Eight(k - j);
  }

  lemma AlignedWords(x: int)
    requires Aligned(x)
    ensures WordAligned(x) && WordAligned(x + 4) && WordAligned(x - 4) && WordAligned(x - 8)
  {
    var k :| x == Eight(k);
    assert x == Four(2 * k) && x + 4 == Four(2 * k + 1) && x - 4 == Four(2 * k - 1) && x - 8 == Four(2 * k - 2);
  }

  lemma AlignedApart(a: int, b: int)
    requires Aligned(a) && Aligned(b)
    ensures a != b + 4 && a + 4 != b
  {
  }

  lemma SmallMultiples()
    ensures Aligned(8) && Aligned(16) && Aligned(4096)
  {
    assert 8 == Eight(1) && 16 == Eight(2) && 4096 == Eight(512);
  }

  // ---------- bit operators ----------

  /** `x & y`, bit by bit. */
  function And(x: nat, y: nat): (r: nat)
    ensures r <= x
    decreases x
  {
    if x == 0 then 0 else 2 * And(x / 2, y / 2) + (if x % 2 == 1 && y % 2 == 1 then 1 else 0)
  }

  /** `x | y`, bit by bit. */
  function Or(x: nat, y: nat): (r: nat)
    ensures x <= r <= x + y
    decreases x + y
  {
    if x == 0 && y == 0 then 0 else 2 * Or(x / 2, y / 2) + (if x % 2 == 1 || y % 2 == 1 then 1 else 0)
  }

  /** `~x` on 32 bits. */
  function Not(x: Word): Word { WORD_LIMIT - 1 - x }

  function Pow2(k: nat): (r: nat)
    ensures r >= 1
  {
    if k == 0 then 1 else 2 * Pow2(k - 1)
  }

  lemma {:induction false} AndOnes(x: nat, k: nat)
    requires x < Pow2(k)
    ensures And(x, Pow2(k) - 1) == x
    decreases k
  {
    if x == 0 {
    } else {
      assert (Pow2(k) - 1) / 2 == Pow2(k - 1) - 1;
      AndOnes(x / 2, k - 1);
    }
  }

  lemma AndDouble(x: nat, y: nat)
    ensures And(x, 2 * y) == 2 * And(x / 2, y)
  {
    assert 2 * y / 2 == y && 2 * y % 2 == 0;
  }

  lemma {:induction false} AndZero(x: nat)
    ensures And(x, 0) == 0
    decreases x
  {
    if x == 0 {
    } else {
      AndZero(x / 2);
    }
  }

  lemma AndOne(x: nat)
    ensures And(x, 1) == x % 2 && And(1, x) == x % 2
  {
    AndZero(x / 2);
  }

  lemma {:induction false} OrZero(x: nat)
    ensures Or(x, 0) == x && Or(0, x) == x
    decreases x
  {
    if x == 0 {
    } else {
      OrZero(x / 2);
    }
  }

  lemma Pow2Of29()
    ensures Pow2(29) == 0x2000_0000
  {
    assert Pow2(8) == 256;
    assert Pow2(16) == 65536;
    assert Pow2(24) == 0x100_0000;
  }

  lemma Halvings(x: nat)
    ensures x / 2 / 2 == x / 4 && x / 4 / 2 == x / 8
  {
  }

  lemma AndEight(x: nat, m: nat)
    ensures And(x, 8 * m) == 8 * And(x / 8, m)
  {
    hide And;
    Halvings(x);
    var x2, x4, m2, m4 := x / 2, x / 4, 2 * m, 4 * m;
    AndDouble(x, m4);
    AndDouble(x2, m2);
    AndDouble(x4, m);
  }

  /** `x & ~0x7` rounds down to a multiple of eight. */
  lemma ClearLow3(x: Word)
    ensures And(x, Not(7)) == x - x % 8
  {
    Pow2Of29();
    AndOnes(x / 8, 29);
    AndEight(x, 0x1FFF_FFFF);
  }

  // ---------- the macros ----------

  /** `make_header`: a size with the allocation flag in its lowest bit. */
  function MakeHeader(size: Word, flag: Word): Word
    requires Aligned(size) && flag <= 1
  {
    size + flag
  }

  lemma MakeHeaderBits(size: Word, flag: Word)
    requires Aligned(size) && flag <= 1
    ensures MakeHeader(size, flag) == Or(size, flag)
  {
    var k :| size == Eight(k);
    assert size / 2 == 4 * k && size % 2 == 0;
    OrZero(size / 2);
  }

  /** `get_size` of a header value. */
  function GetSize(header: Word): Word { header - header % 8 }

  lemma GetSizeBits(header: Word)
    ensures GetSize(header) == And(header, Not(7))
  {
    ClearLow3(header);
  }

  /** `is_allocated` of a header value. */
  function IsAllocated(header: Word): Word { header % 2 }

  lemma IsAllocatedBits(header: Word)
    ensures IsAllocated(header) == And(header, 1)
  {
    AndOne(header);
  }

  /** A header packs its two fields without loss. */
  lemma HeaderFields(size: Word, flag: Word)
    requires Aligned(size) && flag <= 1 && size + flag < WORD_LIMIT
    ensures GetSize(MakeHeader(size, flag)) == size && IsAllocated(MakeHeader(size, flag)) == flag
  {
    var k :| size == Eight(k);
    Mod8(k, flag);
    Mod2(4 * k, flag);
  }

  lemma Mod8(k: int, flag: int)
    requires 0 <= flag <= 1
    ensures (8 * k + flag) % 8 == flag
  {
  }

  lemma Mod2(k: int, flag: int)
    requires 0 <= flag <= 1
    ensures (2 * k + flag) % 2 == flag
  {
  }

  /** `align` on a 32-bit `size_t`: the addition wraps. */
  function Align(size: Word): Word {
    var sum := if size + 7 < WORD_LIMIT then size + 7 else size + 7 - WORD_LIMIT;
    sum - sum % 8
  }

  lemma AlignBits(size: Word)
    ensures Align(size) == And((size + 7) % WORD_LIMIT, Not(7))
  {
    var sum := if size + 7 < WORD_LIMIT then size + 7 else size + 7 - WORD_LIMIT;
    assert sum == (size + 7) % WORD_LIMIT;
    ClearLow3(sum);
  }

  /** `calc_block_size`: header, footer and the aligned payload; wraps like `align`. */
  function CalcBlockSize(size: Word): Word {
    var sum := 8 + Align(size);
    if sum < WORD_LIMIT then sum else sum - WORD_LIMIT
  }

  lemma RoundUp(size: int, sum: int)
    requires sum == size + 7
    ensures size <= sum - sum % 8 < size + 8 && (8 + sum - sum % 8) % 8 == 0
  {
  }

  /** A block size is large enough exactly where it does not wrap around; elsewhere it is 0 or
      8, smaller than any block. */
  lemma CalcBlockSizeExact(size: Word)
    ensures CalcBlockSize(size) >= size + 8 <==> size + 15 < WORD_LIMIT
    ensures size + 15 >= WORD_LIMIT ==> CalcBlockSize(size) == 0 || CalcBlockSize(size) == 8
  {
    if size + 7 < WORD_LIMIT { RoundUp(size, size + 7); }
  }

  /** Without wrap-around a block has room for its payload and both tags, and less than
      eight bytes more. */
  lemma CalcBlockSizeBounds(size: Word)
    requires size + 15 < WORD_LIMIT
    ensures Aligned(CalcBlockSize(size)) && size + 8 <= CalcBlockSize(size) < size + 16
  {
    RoundUp(size, size + 7);
    AlignedMod(CalcBlockSize(size));
  }
}
