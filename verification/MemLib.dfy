/** The simulated memory system: an arena of bytes with a break that only grows, read and
    written by the allocator as little-endian words. */
module MemLib {

  import opened Bits

  const MAX_HEAP: int := 20 * 0x10_0000

  /** The values of a C `int` lie in `[-INT_LIMIT, INT_LIMIT)`. */
  const INT_LIMIT: int := 0x8000_0000

  type Byte = x: int | 0 <= x < 256

  // ---------- words and bytes ----------

  function Pair(lo: Byte, rest: nat): nat { lo + 256 * rest }

  /** Four bytes as a word, lowest byte first. */
  function Decode(b0: Byte, b1: Byte, b2: Byte, b3: Byte): Word {
    Pair(b0, Pair(b1, Pair(b2, b3)))
  }

  lemma PairInjective(a: Byte, x: nat, b: Byte, y: nat)
    requires Pair(a, x) == Pair(b, y)
    ensures a == b && x == y
  {
  }

  lemma DecodeInjective(b0: Byte, b1: Byte, b2: Byte, b3: Byte, c0: Byte, c1: Byte, c2: Byte, c3: Byte)
    requires Decode(b0, b1, b2, b3) == Decode(c0, c1, c2, c3)
    ensures b0 == c0 && b1 == c1 && b2 == c2 && b3 == c3
  {
    PairInjective(b0, Pair(b1, Pair(b2, b3)), c0, Pair(c1, Pair(c2, c3)));
    PairInjective(b1, Pair(b2, b3), c1, Pair(c2, c3));
    PairInjective(b2, b3, c2, c3);
  }

  function WordAt(m: seq<Byte>, i: nat): Word
    requires i + 4 <= |m|
  {
    Decode(m[i], m[i+1], m[i+2], m[i+3])
  }

  ghost predicate WordAddr(n: nat, start: int, a: int) {
    start <= a <= start + n - 4 && WordAligned(a)
  }

  type Words = map<int, Word>

  /** The word at address `a`. */
  function At(w: Words, a: int): Word { if a in w then w[a] else 0 }

  /** `w` has the right word at address `a`. */
  ghost predicate WordOk(m: seq<Byte>, start: int, w: Words, a: int) {
    if WordAddr(|m|, start, a) then a in w && w[a] == WordAt(m, a - start) else a !in w
  }

  /** `w` is the arena read as words at aligned addresses. */
  ghost predicate View(m: seq<Byte>, start: int, w: Words) {
    forall a :: WordOk(m, start, w, a)
  }

  /** The arena read as words. */
  ghost function ViewOf(m: seq<Byte>, start: int): (w: Words)
    ensures View(m, start, w)
  {
    map a | start <= a <= start + |m| && WordAddr(|m|, start, a) :: WordAt(m, a - start)
  }

  lemma WordBytes(m: seq<Byte>, w: Words, m': seq<Byte>, w': Words, start: int, a: int)
    requires |m| == |m'| && WordAddr(|m|, start, a) && View(m, start, w) && View(m', start, w')
    requires At(w, a) == At(w', a)
    ensures forall k :: a - start <= k < a - start + 4 ==> m[k] == m'[k]
  {
    hide Decode;
    assert WordOk(m, start, w, a) && WordOk(m', start, w', a);
    var k := a - start;
    DecodeInjective(m[k], m[k+1], m[k+2], m[k+3], m'[k], m'[k+1], m'[k+2], m'[k+3]);
  }

  lemma FloorFour(j: int, k: int, i: int)
    requires 4 * j <= i < 4 * k
    ensures 4 * j <= 4 * (i / 4) <= i < 4 * (i / 4) + 4 <= 4 * k
  {
  }

  /** Every byte of an aligned range lies in one of its words. */
  lemma FloorWord(lo: int, hi: int, i: int) returns (a: int)
    requires WordAligned(lo) && WordAligned(hi) && lo <= i < hi
    ensures lo <= a <= i < a + 4 <= hi && WordAligned(a)
  {
    var j, k :| lo == Four(j) && hi == Four(k);
    FloorFour(j, k, i);
    a := Four(i / 4);
  }

  /** Where the words of an aligned range are unchanged, so are its bytes. */
  lemma BytesKept(m: seq<Byte>, w: Words, m': seq<Byte>, w': Words, start: int, lo: int, hi: int)
    requires |m| == |m'| && start <= lo <= hi <= start + |m| && WordAligned(lo) && WordAligned(hi)
    requires View(m, start, w) && View(m', start, w')
    requires forall a :: lo <= a < hi ==> At(w, a) == At(w', a)
    ensures m[lo - start..hi - start] == m'[lo - start..hi - start]
  {
    forall i | lo - start <= i < hi - start ensures m[i] == m'[i] {
      var a := FloorWord(lo, hi, start + i);
      WordBytes(m, w, m', w', start, a);
    }
  }

  /** Words that do not meet the changed bytes keep their value. */
  lemma WordKept(m: seq<Byte>, w: Words, m': seq<Byte>, w': Words, start: int, p: int, n: nat, a: int)
    requires |m| == |m'| && View(m, start, w) && View(m', start, w')
    requires forall i :: 0 <= i < |m| && !(p - start <= i < p - start + n) ==> m'[i] == m[i]
    requires a + 4 <= p || p + n <= a
    ensures At(w, a) == At(w', a)
  {
    assert WordOk(m, start, w, a) && WordOk(m', start, w', a);
    if WordAddr(|m|, start, a) {
      var k := a - start;
      assert m[k] == m'[k] && m[k+1] == m'[k+1] && m[k+2] == m'[k+2] && m[k+3] == m'[k+3];
    }
  }

  function Digit(v: Word, k: nat): Byte
    requires k < 4
  {
    if k == 0 then v % 256
    else if k == 1 then v / 256 % 256
    else if k == 2 then v / 256 / 256 % 256
    else v / 256 / 256 / 256
  }

  lemma DecodeDigits(v: Word)
    ensures Decode(Digit(v, 0), Digit(v, 1), Digit(v, 2), Digit(v, 3)) == v
  {
  }

  /** `m'` is `m` with the four bytes at `p` replaced by those of `v`. */
  ghost predicate Stored(m: seq<Byte>, m': seq<Byte>, start: int, p: int, v: Word) {
    && |m| == |m'| && WordAddr(|m|, start, p)
    && m'[p - start] == Digit(v, 0) && m'[p - start + 1] == Digit(v, 1)
    && m'[p - start + 2] == Digit(v, 2) && m'[p - start + 3] == Digit(v, 3)
    && (forall i :: 0 <= i < |m| && !(p - start <= i < p - start + 4) ==> m'[i] == m[i])
  }

  lemma WordStoredAt(m: seq<Byte>, w: Words, m': seq<Byte>, start: int, p: int, v: Word, a: int)
    requires Stored(m, m', start, p, v) && WordOk(m, start, w, a)
    ensures WordOk(m', start, w[p := v], a)
  {
    if a == p {
      DecodeDigits(v);
    } else if WordAddr(|m|, start, a) {
      AlignedGap(a, p);
      var k := a - start;
      assert m[k] == m'[k] && m[k+1] == m'[k+1] && m[k+2] == m'[k+2] && m[k+3] == m'[k+3];
    }
  }

  lemma AlignedGap(a: int, b: int)
    requires WordAligned(a) && WordAligned(b) && a != b
    ensures a + 4 <= b || b + 4 <= a
  {
  }

  lemma WordStored(m: seq<Byte>, w: Words, m': seq<Byte>, start: int, p: int, v: Word)
    requires Stored(m, m', start, p, v) && View(m, start, w)
    ensures View(m', start, w[p := v])
  {
    var stored := w[p := v];
    forall a ensures WordOk(m', start, stored, a) {
      assert WordOk(m, start, w, a);
      WordStoredAt(m, w, m', start, p, v, a);
    }
  }

  // ---------- the memory system ----------

  /** `brk + incr` in 32-bit arithmetic, for a non-negative increment. */
  function Moved(brk: int, incr: int): int {
    if brk + incr < WORD_LIMIT then brk + incr else brk + incr - WORD_LIMIT
  }

  /** An increment that the arena has no room for, and that `mem_sbrk` grants all the same. */
  lemma WrapGranted()
    ensures var start, brk, incr := 0xDF00_0000, 0xE000_0000, 0x2000_0000;
      && Aligned(start) && start <= brk <= start + MAX_HEAP < WORD_LIMIT && incr < INT_LIMIT
      && brk + incr > start + MAX_HEAP && Moved(brk, incr) == 0
  {
    assert 0xDF00_0000 == Eight(0x1BE0_0000);
  }

  /** A heap extended past the end of memory would have its footer outside the arena, on
      either side of that end. */
  lemma WrappedFooter(start: int, brk: int, n: int)
    requires 0 < start && Aligned(start) && start <= brk <= start + MAX_HEAP < WORD_LIMIT
    requires 8 <= n < INT_LIMIT && brk + n >= WORD_LIMIT
    ensures !WordAddr(MAX_HEAP, start, Moved(brk, n - 8))
  {
    var k :| start == Eight(k);
    assert start + MAX_HEAP == Eight(k + 0x28_0000);
  }

  class Memory {
    const bytes: array<Byte>
    const start: int
    var brk: int
    ghost var words: Words

    /** The arena lies at a doubleword-aligned address within 32 bits; `words` is the
        arena read as words. */
    ghost predicate Valid()
      reads this, bytes
    {
      && View(bytes[..], start, words)
      && 0 < start && Aligned(start) && bytes.Length == MAX_HEAP && start + MAX_HEAP < WORD_LIMIT
      && start <= brk <= start + MAX_HEAP
    }

    ghost predicate Addr(a: int) {
      WordAddr(bytes.Length, start, a)
    }

    lemma InView(a: int)
      requires Valid() && Addr(a)
      ensures a in words
    {
      assert WordOk(bytes[..], start, words, a);
    }

    /** `mem_init` on an arena obtained elsewhere: the heap is empty. */
    constructor (arena: array<Byte>, base: int)
      requires arena.Length == MAX_HEAP && 0 < base && Aligned(base) && base + MAX_HEAP < WORD_LIMIT
      ensures Valid() && bytes == arena && start == base && brk == base
    {
      bytes := arena;
      start := base;
      brk := base;
      words := ViewOf(arena[..], base);
    }

    method ResetBrk()
      requires Valid()
      modifies this`brk
      ensures Valid() && brk == start
    {
      brk := start;
    }

    /** The test is on the sum as it wraps: an increment too large for the arena is refused
        only if it stays below the end of memory, and otherwise takes the break below the arena. */
    method Sbrk(incr: int) returns (r: int)
      requires Valid() && -INT_LIMIT <= incr < INT_LIMIT
      modifies this`brk
      ensures r == -1 <==> incr < 0 || start + MAX_HEAP < old(brk) + incr < WORD_LIMIT
      ensures r == -1 ==> brk == old(brk)
      ensures r != -1 ==>
                var sum := old(brk) + incr; r == old(brk) && brk == if sum < WORD_LIMIT then sum else sum - WORD_LIMIT
      ensures Valid() <==> incr < 0 || old(brk) + incr < WORD_LIMIT
      ensures !Valid() ==> 0 <= brk < start
    {
      var oldBrk := brk;
      if incr < 0 || Moved(brk, incr) > start + MAX_HEAP {
        return -1;
      }
      brk := Moved(brk, incr);
      return oldBrk;
    }

    method HeapLo() returns (r: int)
      ensures r == start
    {
      r := start;
    }

    method HeapHi() returns (r: int)
      ensures r == brk - 1
    {
      r := brk - 1;
    }

    method HeapSize() returns (r: int)
      ensures r == brk - start
    {
      r := brk - start;
    }

    /** `get_val`. */
    method GetVal(a: int) returns (v: Word)
      requires Valid() && Addr(a)
      ensures v == At(words, a)
    {
      var i := a - start;
      v := Decode(bytes[i], bytes[i+1], bytes[i+2], bytes[i+3]);
      assert WordOk(bytes[..], start, words, a);
    }

    /** `set_val`. */
    method SetVal(a: int, v: Word)
      requires Valid() && Addr(a)
      modifies this`words, bytes
      ensures Valid() && words == old(words)[a := v]
    {
      var i := a - start;
      bytes[i], bytes[i+1], bytes[i+2], bytes[i+3] := Digit(v, 0), Digit(v, 1), Digit(v, 2), Digit(v, 3);
      WordStored(old(bytes[..]), words, bytes[..], start, a, v);
      words := words[a := v];
    }

    method GetByte(a: int) returns (v: Byte)
      requires start <= a < start + bytes.Length
      ensures v == bytes[a - start]
    {
      v := bytes[a - start];
    }

    /** `memset`. */
    method Memset(p: int, v: Byte, n: nat)
      requires Valid()
      requires start <= p && p + n <= start + bytes.Length
      modifies this`words, bytes
      ensures Valid()
      ensures forall i :: 0 <= i < bytes.Length ==>
                bytes[i] == if p - start <= i < p - start + n then v else old(bytes[i])
      ensures forall a :: a + 4 <= p || p + n <= a ==> At(words, a) == At(old(words), a)
    {
      ghost var m0, w0 := bytes[..], words;
      for k := 0 to n
        modifies bytes
        invariant forall i :: 0 <= i < bytes.Length ==>
                    bytes[i] == if p - start <= i < p - start + k then v else old(bytes[i])
      {
        bytes[p - start + k] := v;
      }
      ghost var w' := ViewOf(bytes[..], start);
      forall a | a + 4 <= p || p + n <= a ensures At(w', a) == At(w0, a) {
        WordKept(m0, w0, bytes[..], w', start, p, n, a);
      }
      words := w';
    }

    /** `memcpy`, which wants its two ranges disjoint. */
    method Memcpy(dst: int, src: int, n: nat)
      requires Valid()
      requires start <= dst && dst + n <= start + bytes.Length
      requires start <= src && src + n <= start + bytes.Length
      requires dst + n <= src || src + n <= dst
      modifies this`words, bytes
      ensures Valid()
      ensures forall i :: 0 <= i < bytes.Length ==>
                bytes[i] == if dst - start <= i < dst - start + n then old(bytes[i - dst + src]) else old(bytes[i])
      ensures forall a :: a + 4 <= dst || dst + n <= a ==> At(words, a) == At(old(words), a)
    {
      ghost var m0, w0 := bytes[..], words;
      for k := 0 to n
        modifies bytes
        invariant forall i :: 0 <= i < bytes.Length ==>
                    bytes[i] == if dst - start <= i < dst - start + k then old(bytes[i - dst + src]) else old(bytes[i])
      {
        bytes[dst - start + k] := bytes[src - start + k];
      }
      ghost var w' := ViewOf(bytes[..], start);
      forall a | a + 4 <= dst || dst + n <= a ensures At(w', a) == At(w0, a) {
        WordKept(m0, w0, bytes[..], w', start, dst, n, a);
      }
      words := w';
    }
  }
}
