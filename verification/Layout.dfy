/** How the abstract heap lies in memory: header and footer words around every block, and
    the free list threaded through the first two payload words of the free blocks.
    Everything about block `a` lies in the words `[a - 4, a + size - 4)`, its own range. */
module Layout {

  import opened Bits
  import opened Tiles
  import opened FreeList
  import opened HeapModel
  import opened MemLib

  // ---------- tags ----------

  function Tag(b: Block): int { b.size + (if b.alloc then 1 else 0) }

  ghost predicate HeadTag(w: Words, t: Tiles, a: int)
    requires a in t.blocks
  {
    At(w, a - 4) == Tag(t.blocks[a])
  }

  ghost predicate FootTag(w: Words, t: Tiles, a: int)
    requires a in t.blocks
  {
    At(w, a + t.blocks[a].size - 8) == Tag(t.blocks[a])
  }

  /** Every block has its header and footer, except perhaps the footer of `but`; the
      epilogue header is in place. */
  ghost predicate Tags(w: Words, t: Tiles, but: int) {
    && (forall a {:trigger HeadTag(w, t, a)} :: a in t.blocks ==> HeadTag(w, t, a))
    && (forall a {:trigger FootTag(w, t, a)} :: a in t.blocks && a != but ==> FootTag(w, t, a))
    && At(w, t.hi - 4) == 1
  }

  // ---------- links ----------

  function NextLink(list: seq<int>, i: nat, stale: int): int {
    if i + 1 < |list| then list[i+1] else stale
  }

  function PrevLink(list: seq<int>, i: nat): int {
    if 0 < i <= |list| then list[i-1] else 0
  }

  ghost predicate Linked(w: Words, list: seq<int>, i: nat, stale: int)
    requires i < |list|
  {
    At(w, list[i]) == NextLink(list, i, stale) && At(w, list[i] + 4) == PrevLink(list, i)
  }

  /** `head` starts a doubly linked list through exactly the entries of `list`. */
  ghost predicate Links(w: Words, head: int, list: seq<int>, stale: int) {
    && head == (if list == [] then stale else list[0])
    && (forall i :: 0 <= i < |list| ==> Linked(w, list, i, stale))
  }

  /** Memory and list head represent the heap `h`; the footer of `but` may be stale. */
  ghost predicate RepBut(w: Words, head: int, h: Heap, but: int) {
    Tags(w, h.t, but) && Links(w, head, h.list, h.stale)
  }

  ghost predicate Rep(w: Words, head: int, h: Heap) { RepBut(w, head, h, 0) }

  lemma RepForgets(w: Words, head: int, h: Heap, but: int)
    requires Rep(w, head, h) && Tiling(h.t)
    ensures RepBut(w, head, h, but)
  {
    NoBlockAtZero(h.t);
  }

  // ---------- frames ----------

  /** The words outside `[lo, hi)` are the same. */
  ghost predicate OnlyIn(w: Words, w': Words, lo: int, hi: int) {
    forall a :: a < lo || hi <= a ==> At(w', a) == At(w, a)
  }

  /** The payload words of block `b` are the same. */
  ghost predicate KeptBlock(w: Words, w': Words, t: Tiles, b: int)
    requires b in t.blocks
  {
    forall a :: b <= a < b + t.blocks[b].size - 8 ==> At(w', a) == At(w, a)
  }

  /** The payload words of every live block are the same. */
  ghost predicate Kept(w: Words, w': Words, t: Tiles) {
    forall b {:trigger KeptBlock(w, w', t, b)} :: Live(t, b) ==> KeptBlock(w, w', t, b)
  }

  lemma KeptThen(w0: Words, w1: Words, w2: Words, t: Tiles)
    requires Kept(w0, w1, t) && Kept(w1, w2, t)
    ensures Kept(w0, w2, t)
  {
    forall b | Live(t, b) ensures KeptBlock(w0, w2, t, b) {
      assert KeptBlock(w0, w1, t, b) && KeptBlock(w1, w2, t, b);
    }
  }

  lemma KeptFewer(w: Words, w': Words, t: Tiles, u: Tiles)
    requires Kept(w, w', u)
    requires forall b :: Live(t, b) ==> Live(u, b) && t.blocks[b].size <= u.blocks[b].size
    ensures Kept(w, w', t)
  {
    forall b | Live(t, b) ensures KeptBlock(w, w', t, b) {
      assert KeptBlock(w, w', u, b);
    }
  }

  /** A change inside the ranges of the blocks of `[s, e)` leaves everything else alone. */
  lemma Foreign(w: Words, w': Words, t: Tiles, s: int, e: int, b: int)
    requires Tiling(t) && s in t.blocks && (e in t.blocks || e == t.hi) && s < e
    requires OnlyIn(w, w', s - 4, e - 4)
    requires b in t.blocks && !(s <= b < e)
    ensures HeadTag(w, t, b) ==> HeadTag(w', t, b)
    ensures FootTag(w, t, b) ==> FootTag(w', t, b)
    ensures b != t.lo ==> At(w', b) == At(w, b) && At(w', b + 4) == At(w, b + 4)
    ensures KeptBlock(w, w', t, b)
  {
    assert Placed(t, b) && Placed(t, s);
    assert b < s ==> b + t.blocks[b].size <= s;
    assert e <= t.hi by { if e in t.blocks { assert Placed(t, e); } }
  }

  lemma ForeignLinks(w: Words, w': Words, t: Tiles, s: int, e: int, head: int, list: seq<int>, stale: int)
    requires Tiling(t) && s in t.blocks && (e in t.blocks || e == t.hi) && s < e
    requires OnlyIn(w, w', s - 4, e - 4)
    requires forall a :: a in list ==> Free(t, a) && !(s <= a < e)
    requires Links(w, head, list, stale)
    ensures Links(w', head, list, stale)
  {
    forall i | 0 <= i < |list| ensures Linked(w', list, i, stale) {
      var a := list[i];
      assert a in list && Linked(w, list, i, stale);
      Foreign(w, w', t, s, e, a);
    }
  }

  /** `u` differs from `t` only within `[s, e)`. */
  ghost predicate SameOutside(t: Tiles, u: Tiles, s: int, e: int) {
    && t.lo == u.lo && t.hi == u.hi
    && (forall a :: a in u.blocks && !(s <= a < e) ==> a in t.blocks && u.blocks[a] == t.blocks[a])
  }

  /** Tags after rewriting the blocks of `[s, e)`: those of the new blocks are enough. */
  lemma RangeTags(w: Words, w': Words, t: Tiles, u: Tiles, s: int, e: int, but: int, but': int)
    requires Tiling(t) && s in t.blocks && (e in t.blocks || e == t.hi) && s < e
    requires OnlyIn(w, w', s - 4, e - 4) && SameOutside(t, u, s, e)
    requires Tags(w, t, but) && (but in t.blocks ==> s <= but < e)
    requires forall a :: a in u.blocks && s <= a < e ==> HeadTag(w', u, a) && (a == but' || FootTag(w', u, a))
    ensures Tags(w', u, but')
  {
    assert e <= t.hi by { if e in t.blocks { assert Placed(t, e); } }
    forall a | a in u.blocks ensures HeadTag(w', u, a) && (a == but' || FootTag(w', u, a)) {
      if !(s <= a < e) { Foreign(w, w', t, s, e, a); }
    }
  }

  lemma RangeKept(w: Words, w': Words, t: Tiles, u: Tiles, s: int, e: int)
    requires Tiling(t) && s in t.blocks && (e in t.blocks || e == t.hi) && s < e
    requires OnlyIn(w, w', s - 4, e - 4) && SameOutside(t, u, s, e)
    requires forall b :: Live(u, b) && s <= b < e ==> KeptBlock(w, w', u, b)
    ensures Kept(w, w', u)
  {
    forall b | Live(u, b) ensures KeptBlock(w, w', u, b) {
      if !(s <= b < e) { Foreign(w, w', t, s, e, b); }
    }
  }

  // ---------- list steps ----------

  /** `set_next_free_block_ptr`. */
  function PutNext(w: Words, p: int, v: Word): Words { if p == 0 then w else w[p := v] }

  /** `set_prev_free_block_ptr`. */
  function PutPrev(w: Words, p: int, v: Word): Words { if p == 0 then w else w[p + 4 := v] }

  /** Writing a link of a free block touches no tag and no live payload. */
  lemma LinkWrite(w: Words, t: Tiles, but: int, x: int, v: Word)
    requires Tiling(t) && Free(t, x) && Tags(w, t, but)
    ensures Tags(PutNext(w, x, v), t, but) && Kept(w, PutNext(w, x, v), t)
    ensures Tags(PutPrev(w, x, v), t, but) && Kept(w, PutPrev(w, x, v), t)
  {
    assert Placed(t, x);
    assert Next(t, x) in t.blocks || Next(t, x) == t.hi;
    forall w' | w' == PutNext(w, x, v) || w' == PutPrev(w, x, v)
      ensures Tags(w', t, but) && Kept(w, w', t)
    {
      assert OnlyIn(w, w', x - 4, Next(t, x) - 4);
      RangeKept(w, w', t, t, x, Next(t, x));
      forall a | a in t.blocks ensures HeadTag(w', t, a) && (a != but ==> FootTag(w', t, a)) {
        assert HeadTag(w, t, a) && (a != but ==> FootTag(w, t, a));
        if a != x { Foreign(w, w', t, x, Next(t, x), a); }
      }
    }
  }

  /** The same for the stale address that `mm_init` may still link to. */
  lemma StaleWrite(w: Words, h: Heap, v: Word)
    requires Wf(h) && h.stale != 0 && Tags(w, h.t, 0)
    ensures Tags(PutPrev(w, h.stale, v), h.t, 0) && Kept(w, PutPrev(w, h.stale, v), h.t)
  {
    hide Aligned;
    var t := h.t;
    var first := t.lo + 8;
    assert Next(t, t.lo) == first;
    assert Placed(t, first);
    assert Next(t, first) == t.hi;
    StaleApart(h);
    NoBlockAtZero(t);
    forall a | a in t.blocks ensures HeadTag(PutPrev(w, h.stale, v), t, a) && FootTag(PutPrev(w, h.stale, v), t, a) {
      assert HeadTag(w, t, a) && FootTag(w, t, a);
    }
  }

  lemma StaleApart(h: Heap)
    requires Wf(h) && h.stale != 0
    ensures var q := h.stale + 4;
      q > h.t.lo + 4 && q != h.t.hi - 8 && q != h.t.hi - 4
  {
    AlignedApart(h.stale, h.t.hi);
    SmallMultiples();
    AlignedSum(8, h.t.hi);
    AlignedApart(h.stale, h.t.hi - 8);
  }

  /** Any word the list code writes: a link of a free block, or of the stale address. */
  lemma ListWrite(w: Words, h: Heap, but: int, x: int, v: Word)
    requires Wf(h) && Tags(w, h.t, but) && (h.stale != 0 ==> but == 0)
    requires x == 0 || Free(h.t, x) || x == h.stale
    ensures Tags(PutPrev(w, x, v), h.t, but) && Kept(w, PutPrev(w, x, v), h.t)
  {
    if x == 0 {
    } else if Free(h.t, x) {
      LinkWrite(w, h.t, but, x, v);
    } else {
      StaleWrite(w, h, v);
    }
  }

  /** The words after `add_to_free_list`. */
  function AddWords(w: Words, head: Word, p: Word): Words {
    PutPrev(PutPrev(PutNext(w, p, head), head, p), p, 0)
  }

  lemma FreeIsAddress(h: Heap, x: int)
    requires Wf(h) && (Free(h.t, x) || (x == h.stale && x != 0))
    ensures x > 0 && Aligned(x)
  {
    if Free(h.t, x) { assert Placed(h.t, x); }
  }

  lemma HeadIs(w: Words, head: int, h: Heap)
    requires Wf(h) && Links(w, head, h.list, h.stale)
    ensures head == 0 || Free(h.t, head) || head == h.stale
    ensures head == 0 <==> h.list == [] && h.stale == 0
  {
    if h.list != [] {
      assert h.list[0] in h.list;
      FreeIsAddress(h, head);
    }
  }

  lemma AddLinks(w: Words, head: Word, h: Heap, p: Word)
    requires Wf(h) && Links(w, head, h.list, h.stale) && Free(h.t, p) && p !in h.list
    ensures Links(AddWords(w, head, p), p, [p] + h.list, h.stale)
  {
    hide Tiling, StaleOk;
    FreeIsAddress(h, p);
    HeadIs(w, head, h);
    if head != 0 { FreeIsAddress(h, head); }
    var w', s := AddWords(w, head, p), [p] + h.list;
    forall i | 0 <= i < |s| ensures Linked(w', s, i, h.stale) {
      if i > 0 {
        var a := h.list[i-1];
        assert a in h.list && s[i] == a && Linked(w, h.list, i - 1, h.stale);
        FreeIsAddress(h, a);
        assert At(w', a) == At(w, a);
        if i > 1 { assert h.list[0] != a; assert At(w', a + 4) == At(w, a + 4); }
      }
    }
  }

  /** The words after `remove_from_free_list`. */
  function RemoveWords(w: Words, prev: Word, next: Word): Words {
    if prev != 0 then PutPrev(PutNext(w, prev, next), next, prev) else PutPrev(w, next, 0)
  }

  ghost predicate Addresses(s: seq<int>) {
    forall a :: a in s ==> 0 < a < WORD_LIMIT && Aligned(a)
  }

  lemma NeighbourLinks(s: seq<int>, k: nat)
    requires Addresses(s) && Distinct(s) && k < |s|
    ensures var prev, next := PrevLink(s, k), NextLink(s, k, 0);
      && 0 <= prev < WORD_LIMIT && Aligned(prev) && (prev == 0 <==> k == 0)
      && 0 <= next < WORD_LIMIT && Aligned(next) && (next == 0 <==> k + 1 == |s|)
  {
    assert 0 == Eight(0);
    if k > 0 { assert s[k-1] in s; }
    if k + 1 < |s| { assert s[k+1] in s; }
  }

  /** The links of an entry that stays, by whether it was next to the one that leaves. */
  lemma RemoveLinked(w: Words, head: int, s: seq<int>, k: nat, j: nat)
    requires Addresses(s) && Distinct(s) && Links(w, head, s, 0)
    requires k < |s| && j < |s| && j != k
    requires var prev, next := PrevLink(s, k), NextLink(s, k, 0); 0 <= prev < WORD_LIMIT && 0 <= next < WORD_LIMIT
    ensures var w' := RemoveWords(w, PrevLink(s, k), NextLink(s, k, 0));
      && At(w', s[j]) == (if j == k - 1 then NextLink(s, k, 0) else NextLink(s, j, 0))
      && At(w', s[j] + 4) == (if j == k + 1 then PrevLink(s, k) else PrevLink(s, j))
  {
    NeighbourLinks(s, k);
    var a, prev, next := s[j], PrevLink(s, k), NextLink(s, k, 0);
    assert a in s && Linked(w, s, j, 0);
    AlignedApart(a, prev);
    AlignedApart(a, next);
    AlignedApart(prev, next);
  }

  lemma CutLinks(s: seq<int>, k: nat, i: nat)
    requires k < |s| && i + 1 < |s|
    ensures var r, j := s[..k] + s[k+1..], if i < k then i else i + 1;
      && r[i] == s[j]
      && NextLink(r, i, 0) == (if j == k - 1 then NextLink(s, k, 0) else NextLink(s, j, 0))
      && PrevLink(r, i) == (if j == k + 1 then PrevLink(s, k) else PrevLink(s, j))
  {
  }

  lemma CutLinked(w: Words, head: int, s: seq<int>, k: nat, i: nat)
    requires Addresses(s) && Distinct(s) && Links(w, head, s, 0) && k < |s| && i + 1 < |s|
    requires var prev, next := PrevLink(s, k), NextLink(s, k, 0); 0 <= prev < WORD_LIMIT && 0 <= next < WORD_LIMIT
    ensures Linked(RemoveWords(w, PrevLink(s, k), NextLink(s, k, 0)), s[..k] + s[k+1..], i, 0)
  {
    hide RemoveWords, Links, Addresses, Distinct;
    CutLinks(s, k, i);
    RemoveLinked(w, head, s, k, if i < k then i else i + 1);
  }

  lemma RemoveLinks(w: Words, head: int, s: seq<int>, k: nat)
    requires Addresses(s) && Distinct(s) && Links(w, head, s, 0) && k < |s|
    requires var prev, next := PrevLink(s, k), NextLink(s, k, 0); 0 <= prev < WORD_LIMIT && 0 <= next < WORD_LIMIT
    ensures var prev, next := PrevLink(s, k), NextLink(s, k, 0);
      Links(RemoveWords(w, prev, next), if prev != 0 then head else next, Without(s, {s[k]}), 0)
  {
    hide Linked, Aligned, RemoveWords;
    var prev, next := PrevLink(s, k), NextLink(s, k, 0);
    var w', r := RemoveWords(w, prev, next), s[..k] + s[k+1..];
    forall i | 0 <= i < |r| ensures Linked(w', r, i, 0) {
      CutLinked(w, head, s, k, i);
    }
    assert Links(w', if prev != 0 then head else next, r, 0) by { NeighbourLinks(s, k); }
    WithoutIndex(s, k);
  }

  /** `add_to_free_list` represents the list with `p` in front. */
  lemma AddRep(w: Words, head: Word, h: Heap, p: Word)
    requires Wf(h) && Rep(w, head, h) && Free(h.t, p) && p !in h.list
    ensures Wf(Push(h, p)) && Rep(AddWords(w, head, p), p, Push(h, p)) && Kept(w, AddWords(w, head, p), h.t)
  {
    hide Tags, Links, Tiling, Kept, PutNext, PutPrev, Distinct;
    HeadIs(w, head, h);
    AddLinks(w, head, h, p);
    PushDistinct(h.list, p);
    var w1 := PutNext(w, p, head);
    var w2 := PutPrev(w1, head, p);
    LinkWrite(w, h.t, 0, p, head);
    ListWrite(w1, h, 0, head, p);
    LinkWrite(w2, h.t, 0, p, 0);
    KeptThen(w, w1, w2, h.t);
    KeptThen(w, w2, PutPrev(w2, p, 0), h.t);
  }

  lemma RemoveTags(w: Words, h: Heap, prev: Word, next: Word)
    requires Wf(h) && Tags(w, h.t, 0)
    requires prev == 0 || Free(h.t, prev)
    requires next == 0 || Free(h.t, next) || next == h.stale
    ensures Tags(RemoveWords(w, prev, next), h.t, 0) && Kept(w, RemoveWords(w, prev, next), h.t)
  {
    if prev != 0 {
      LinkWrite(w, h.t, 0, prev, next);
      ListWrite(PutNext(w, prev, next), h, 0, next, prev);
    } else {
      ListWrite(w, h, 0, next, 0);
    }
  }

  /** `remove_from_free_list` of entry `p` represents the list without it. */
  lemma RemoveRep(w: Words, head: int, h: Heap, p: int)
    requires Wf(h) && Rep(w, head, h) && p in h.list && (h.stale != 0 ==> h.list == [p])
    requires (forall a :: a in h.list ==> a < WORD_LIMIT) && 0 <= h.stale < WORD_LIMIT
    ensures var prev, next := At(w, p + 4), At(w, p);
      && Wf(Drop(h, p))
      && (prev == 0 || Free(h.t, prev)) && (next == 0 || Free(h.t, next) || next == h.stale)
      && Rep(RemoveWords(w, prev, next), if prev != 0 then head else next, Drop(h, p))
      && Kept(w, RemoveWords(w, prev, next), h.t)
  {
    var k :| 0 <= k < |h.list| && h.list[k] == p;
    var prev, next := At(w, p + 4), At(w, p);
    assert Linked(w, h.list, k, h.stale);
    forall a | a in h.list ensures 0 < a < WORD_LIMIT && Aligned(a) { FreeIsAddress(h, a); }
    if h.stale == 0 {
      NeighbourLinks(h.list, k);
      RemoveLinks(w, head, h.list, k);
    } else {
      WithoutIndex(h.list, k);
    }
    if k > 0 { assert prev in h.list; }
    if k + 1 < |h.list| { assert next in h.list; }
    RemoveTags(w, h, prev, next);
    DropWf(h, p);
  }

  // ---------- tag writes ----------

  /** Rewriting the blocks of `[s, e)`, none of them listed, needs only their own tags. */
  lemma RangeRep(w: Words, w': Words, head: int, h: Heap, u: Tiles, s: int, e: int, but: int, but': int)
    requires Tiling(h.t) && s in h.t.blocks && (e in h.t.blocks || e == h.t.hi) && s < e
    requires OnlyIn(w, w', s - 4, e - 4) && SameOutside(h.t, u, s, e)
    requires RepBut(w, head, h, but) && (but in h.t.blocks ==> s <= but < e)
    requires forall a :: a in h.list ==> Free(h.t, a) && !(s <= a < e)
    requires forall a :: a in u.blocks && s <= a < e ==> HeadTag(w', u, a) && (a == but' || FootTag(w', u, a))
    requires forall b :: Live(u, b) && s <= b < e ==> KeptBlock(w, w', u, b)
    ensures RepBut(w', head, h.(t := u), but') && Kept(w, w', u)
  {
    ForeignLinks(w, w', h.t, s, e, head, h.list, h.stale);
    RangeTags(w, w', h.t, u, s, e, but, but');
    RangeKept(w, w', h.t, u, s, e);
  }

  /** Writing inside the payload of live block `q` changes nothing else. */
  lemma PayloadRep(w: Words, w': Words, head: int, h: Heap, q: int, k: nat)
    requires Wf(h) && Rep(w, head, h) && Live(h.t, q) && k <= h.t.blocks[q].size - 8
    requires forall a :: a + 4 <= q || q + k <= a ==> At(w', a) == At(w, a)
    ensures Rep(w', head, h)
    ensures forall b :: Live(h.t, b) && b != q ==> KeptBlock(w, w', h.t, b)
  {
    var e := Next(h.t, q);
    assert Placed(h.t, q);
    assert OnlyIn(w, w', q - 4, e - 4);
    NoBlockAtZero(h.t);
    assert HeadTag(w, h.t, q) && FootTag(w, h.t, q);
    ForeignLinks(w, w', h.t, q, e, head, h.list, h.stale);
    RangeTags(w, w', h.t, h.t, q, e, 0, 0);
    forall b | Live(h.t, b) && b != q ensures KeptBlock(w, w', h.t, b) {
      Foreign(w, w', h.t, q, e, b);
    }
  }

  // ---------- bytes ----------

  /** The bytes of addresses `[lo, hi)`. */
  ghost function Bytes(m: seq<Byte>, start: int, lo: int, hi: int): seq<Byte> {
    if start <= lo <= hi <= start + |m| then m[lo - start..hi - start] else []
  }

  /** The payload of live block `b`. */
  ghost function Payload(m: seq<Byte>, start: int, t: Tiles, b: int): seq<Byte>
    requires b in t.blocks
  {
    Bytes(m, start, b, b + t.blocks[b].size - 8)
  }

  /** No byte of a live payload of `t` changed, outside those of `touched`. */
  ghost predicate PayloadsKept(m: seq<Byte>, m': seq<Byte>, start: int, t: Tiles, touched: set<int>) {
    forall b {:trigger Payload(m, start, t, b)} ::
      Live(t, b) && b !in touched ==> Payload(m, start, t, b) == Payload(m', start, t, b)
  }

  lemma BlockBytesKept(m: seq<Byte>, w: Words, m': seq<Byte>, w': Words, start: int, t: Tiles, b: int)
    requires |m| == |m'| && View(m, start, w) && View(m', start, w')
    requires Tiling(t) && b in t.blocks && KeptBlock(w, w', t, b)
    ensures Payload(m, start, t, b) == Payload(m', start, t, b)
  {
    assert Placed(t, b);
    AlignedWords(b);
    AlignedSum(b, t.blocks[b].size);
    AlignedWords(b + t.blocks[b].size);
    var hi := b + t.blocks[b].size - 8;
    if start <= b <= hi <= start + |m| { BytesKept(m, w, m', w', start, b, hi); }
  }

  /** Kept words are kept bytes. */
  lemma KeptBytes(m: seq<Byte>, w: Words, m': seq<Byte>, w': Words, start: int, t: Tiles, touched: set<int>)
    requires |m| == |m'| && View(m, start, w) && View(m', start, w') && Tiling(t)
    requires forall b :: Live(t, b) && b !in touched ==> KeptBlock(w, w', t, b)
    ensures PayloadsKept(m, m', start, t, touched)
  {
    forall b | Live(t, b) && b !in touched ensures Payload(m, start, t, b) == Payload(m', start, t, b) {
      BlockBytesKept(m, w, m', w', start, t, b);
    }
  }

  /** What it means for payloads to be kept, byte by byte. */
  lemma PayloadsKeptMeans(m: seq<Byte>, m': seq<Byte>, start: int, t: Tiles, touched: set<int>, b: int, i: nat)
    requires |m| == |m'| && Tiling(t) && start <= t.lo && t.hi <= start + |m|
    requires PayloadsKept(m, m', start, t, touched) && Live(t, b) && b !in touched && i < t.blocks[b].size - 8
    ensures 0 <= b - start + i < |m| && m'[b - start + i] == m[b - start + i]
  {
    BlockPlaced(t, b);
    assert Payload(m, start, t, b) == Payload(m', start, t, b);
    assert Payload(m, start, t, b)[i] == m[b - start + i] && Payload(m', start, t, b)[i] == m'[b - start + i];
  }

  /** A free run becomes one block by writing its two outer tags. */
  lemma MergeRep(w: Words, w': Words, head: int, h: Heap, s: int, e: int)
    requires Mergeable(h.t, s, e) && Rep(w, head, h)
    requires OnlyIn(w, w', s - 4, e - 4) && At(w', s - 4) == At(w', e - 8) == e - s
    requires forall a :: a in h.list ==> Free(h.t, a) && !(s <= a < e)
    ensures Rep(w', head, h.(t := Merge(h.t, s, e, false))) && Kept(w, w', Merge(h.t, s, e, false))
  {
    var t, u := h.t, Merge(h.t, s, e, false);
    NoBlockAtZero(t);
    forall a | a in u.blocks ensures a == s || (a in t.blocks && !(s <= a < e) && u.blocks[a] == t.blocks[a]) {
      MergeBlock(t, s, e, false, a);
    }
    RangeRep(w, w', head, h, u, s, e, 0, 0);
  }

  /** A live block swallows the free block above it: only its header is written. */
  lemma JoinRep(w: Words, w': Words, head: int, h: Heap, p: int)
    requires Tiling(h.t) && NoAdjacentFree(h.t, 0) && Live(h.t, p) && Free(h.t, Next(h.t, p)) && Rep(w, head, h)
    requires forall a :: a in h.list ==> Free(h.t, a) && a != Next(h.t, p)
    requires var e := Next(h.t, Next(h.t, p)); OnlyIn(w, w', p - 4, p) && At(w', p - 4) == e - p + 1
    ensures RepBut(w', head, h.(t := Merge(h.t, p, Next(h.t, Next(h.t, p)), true)), p) && Kept(w, w', h.t)
  {
    var t, m := h.t, Next(h.t, p);
    var e := Next(t, m);
    var u := Merge(t, p, e, true);
    assert Placed(t, p) && Placed(t, m);
    NoBlockAtZero(t);
    JoinedTiles(t, p);
    ForeignLinks(w, w', t, p, m, head, h.list, h.stale);
    RangeTags(w, w', t, u, p, e, 0, p);
    RangeKept(w, w', t, t, p, m);
  }

  /** A block changes its flag: header and footer. */
  lemma RelabelRep(w: Words, w': Words, head: int, h: Heap, x: int, alloc: bool)
    requires Tiling(h.t) && RepBut(w, head, h, x) && x in h.t.blocks && x != h.t.lo
    requires forall a :: a in h.list ==> Free(h.t, a) && a != x
    requires var e := Next(h.t, x);
      && (forall a :: a != x - 4 && a != e - 8 ==> At(w', a) == At(w, a))
      && At(w', x - 4) == At(w', e - 8) == Tag(Block(h.t.blocks[x].size, alloc))
    ensures Rep(w', head, h.(t := Relabel(h.t, x, alloc))) && Kept(w, w', Relabel(h.t, x, alloc))
  {
    hide Links;
    assert Placed(h.t, x);
    RangeRep(w, w', head, h, Relabel(h.t, x, alloc), x, Next(h.t, x), x, 0);
  }

  /** A block is cut in two: both headers and both footers. */
  lemma SplitRep(w: Words, w': Words, head: int, h: Heap, x: int, n: int)
    requires Splittable(h.t, x, n) && RepBut(w, head, h, x)
    requires forall a :: a in h.list ==> Free(h.t, a) && a != x
    requires var m := x + n; var e := Next(h.t, x);
      && (forall a :: a != x - 4 && a != m - 8 && a != m - 4 && a != e - 8 ==> At(w', a) == At(w, a))
      && At(w', x - 4) == At(w', m - 8) == n + 1 && At(w', m - 4) == At(w', e - 8) == e - m
    ensures Rep(w', head, h.(t := Split(h.t, x, n))) && Kept(w, w', Split(h.t, x, n))
  {
    hide RepBut, Tags, Links, Tiling, Rep;
    var u, e := Split(h.t, x, n), Next(h.t, x);
    BlockPlaced(h.t, x);
    SplitNew(h.t, x, n);
    SplitRange(h.t, x, n);
    RangeRep(w, w', head, h, u, x, e, x, 0);
    RepOf(w', head, h.(t := u));
  }

  lemma RepOf(w: Words, head: int, h: Heap)
    requires RepBut(w, head, h, 0)
    ensures Rep(w, head, h)
  {
  }

  /** The heap grows by `n` bytes: the new block's tags, its header over the old epilogue,
      and a new epilogue. */
  ghost predicate GrowWords(w: Words, w': Words, hi: int, n: int) {
    && (forall a :: a != hi - 4 && a != hi + n - 8 && a != hi + n - 4 ==> At(w', a) == At(w, a))
    && At(w', hi - 4) == At(w', hi + n - 8) == n && At(w', hi + n - 4) == 1
  }

  lemma GrowTags(w: Words, w': Words, t: Tiles, n: int, a: int)
    requires Tiling(t) && Tags(w, t, 0) && n >= MIN_BLOCK_SIZE && GrowWords(w, w', t.hi, n)
    requires a in Grow(t, n).blocks
    ensures HeadTag(w', Grow(t, n), a) && FootTag(w', Grow(t, n), a)
  {
    if a != t.hi {
      NoBlockAtZero(t);
      assert Placed(t, a) && HeadTag(w, t, a) && FootTag(w, t, a);
    }
  }

  lemma GrowRep(w: Words, w': Words, head: int, h: Heap, n: int)
    requires Tiling(h.t) && Rep(w, head, h) && n >= MIN_BLOCK_SIZE && GrowWords(w, w', h.t.hi, n)
    requires forall a :: a in h.list ==> Free(h.t, a)
    ensures Rep(w', head, h.(t := Grow(h.t, n))) && Kept(w, w', h.t)
  {
    var t, u := h.t, Grow(h.t, n);
    forall a | a in u.blocks ensures HeadTag(w', u, a) && FootTag(w', u, a) {
      GrowTags(w, w', t, n, a);
    }
    forall i | 0 <= i < |h.list| ensures Linked(w', h.list, i, h.stale) {
      assert h.list[i] in h.list && Placed(t, h.list[i]) && Linked(w, h.list, i, h.stale);
    }
    forall b | Live(t, b) ensures KeptBlock(w, w', t, b) {
      assert Placed(t, b);
    }
  }
}
