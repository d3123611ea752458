/** `mm_init` step by step on memory, from whatever list head an earlier heap left behind.  One
    head is 8 bytes below the new break: the previous-link word that `add_to_free_list` writes
    through it is the new epilogue header, and `coalesce` goes on to treat what lies beyond the
    break as a free block.  The two words found there can be anything, so every access is
    checked: one outside the arena or not at a word boundary ends the run. */
module Reinit {

  import opened Bits
  import opened Common
  import opened Tiles
  import opened FreeList
  import opened MemLib
  import opened Layout
  import opened MM
  import H = HeapModel

  // ---------- the steps, on words ----------

  /** The words of the arena and the list head. */
  datatype Raw = Raw(w: Words, head: Word)

  ghost predicate Reach(start: int, a: int) { WordAddr(MAX_HEAP, start, a) }

  /** `remove_from_free_list` of a block whose links are whatever memory holds. */
  ghost function RawRemove(start: int, s: Raw, p: int): Option<Raw> {
    var prev, next := At(s.w, p + 4), At(s.w, p);
    if (prev != 0 && !Reach(start, prev)) || (next != 0 && !Reach(start, next + 4)) then None
    else Some(Raw(RemoveWords(s.w, prev, next), if prev != 0 then s.head else next))
  }

  /** `add_to_free_list`. */
  ghost function RawAdd(start: int, s: Raw, p: Word): Option<Raw> {
    if s.head != 0 && !Reach(start, s.head + 4) then None else Some(Raw(AddWords(s.w, s.head, p), p))
  }

  /** Addition of two words, which wraps. */
  function Sum(a: Word, b: Word): Word { if a + b < WORD_LIMIT then a + b else a + b - WORD_LIMIT }

  /** The tags `coalesce` writes when only the next block is free, for a block whose size it
      read as `size`; the header is read again to find the next block. */
  ghost function RawTags(start: int, s: Raw, x: Word, size: Word): Option<Raw> {
    var next := Sum(x, GetSize(At(s.w, x - 4)));
    if !Reach(start, next - 4) then None else
    var whole := Sum(size, GetSize(At(s.w, next - 4)));
    var foot := Sum(x, GetSize(whole)) - 8;
    if !Reach(start, foot) then None else Some(s.(w := s.w[x - 4 := whole][foot := whole]))
  }

  /** The removals of `coalesce`: the next block if free, and the block itself if still free. */
  ghost function RawUnlink(start: int, s: Raw, x: Word, next: int, nextFree: bool): Option<Raw> {
    match if nextFree then RawRemove(start, s, next) else Some(s)
    case None => None
    case Some(s1) => if IsAllocated(At(s1.w, x - 4)) == 0 then RawRemove(start, s1, x) else Some(s1)
  }

  /** `coalesce` of a block of `size` bytes above an allocated block. */
  ghost function RawCoalesce(start: int, s: Raw, x: Word, size: Word): Option<Raw> {
    var nextFree := IsAllocated(At(s.w, x + size - 4)) == 0;
    match RawUnlink(start, s, x, x + size, nextFree)
    case None => None
    case Some(s1) =>
      match if nextFree then RawTags(start, s1, x, size) else Some(s1)
      case None => None
      case Some(s2) => RawAdd(start, s2, x)
  }

  /** What `mm_init` writes before it meets the free list. */
  ghost function RawTagged(w: Words, start: int): Words {
    GrownWords(PrologueWords(w, start), start + 16, H.CHUNK_SIZE)
  }

  /** `mm_init` on memory `w`, from list head `head`. */
  ghost function RawInit(start: int, w: Words, head: Word): Option<Raw>
    requires 0 <= start && start + 16 < WORD_LIMIT
  {
    var x := start + 16;
    match RawAdd(start, Raw(RawTagged(w, start), head), x)
    case None => None
    case Some(s1) =>
      match RawCoalesce(start, s1, x, H.CHUNK_SIZE)
      case None => None
      case Some(s2) => Some(Raw(PutPrev(PutNext(s2.w, x, 0), x, 0), x))
  }

  // ---------- what becomes of the epilogue ----------

  /** The words around a block of `CHUNK_SIZE` bytes, among them the epilogue header above it,
      that every step leaves multiples of four. */
  ghost predicate Even(w: Words, x: int) {
    && WordAligned(At(w, x - 4)) && WordAligned(At(w, x)) && WordAligned(At(w, x + 4))
    && WordAligned(At(w, x + H.CHUNK_SIZE - 4))
  }

  lemma WriteEven(w: Words, x: int, a: int, v: Word)
    requires Even(w, x) && WordAligned(v)
    ensures Even(w[a := v], x)
  {
  }

  lemma PutEven(w: Words, x: int, p: int, v: Word)
    requires Even(w, x) && WordAligned(v)
    ensures Even(PutNext(w, p, v), x) && Even(PutPrev(w, p, v), x)
  {
    WriteEven(w, x, p, v);
    WriteEven(w, x, p + 4, v);
  }

  lemma ReachAligned(start: int, p: Word)
    requires p != 0 ==> Reach(start, p) || Reach(start, p + 4)
    ensures WordAligned(p)
  {
    if p == 0 {
      assert 0 == Four(0);
    } else if Reach(start, p + 4) {
      var k :| p + 4 == Four(k);
      assert p == Four(k - 1);
    }
  }

  /** The run has ended, or goes on with those words and the list head multiples of four. */
  ghost predicate EvenAfter(r: Option<Raw>, x: int) {
    r.Some? ==> Even(r.value.w, x) && WordAligned(r.value.head)
  }

  lemma RemoveEven(start: int, s: Raw, x: int, p: int)
    requires Even(s.w, x) && WordAligned(s.head)
    ensures EvenAfter(RawRemove(start, s, p), x)
  {
    var prev, next := At(s.w, p + 4), At(s.w, p);
    if RawRemove(start, s, p).Some? {
      ReachAligned(start, prev);
      ReachAligned(start, next);
      assert WordAligned(0) by { assert 0 == Four(0); }
      PutEven(s.w, x, prev, next);
      PutEven(PutNext(s.w, prev, next), x, next, prev);
      PutEven(s.w, x, next, 0);
    }
  }

  lemma UnlinkEven(start: int, s: Raw, x: Word, next: int, nextFree: bool)
    requires Even(s.w, x) && WordAligned(s.head)
    ensures EvenAfter(RawUnlink(start, s, x, next, nextFree), x)
  {
    RemoveEven(start, s, x, next);
    var r := if nextFree then RawRemove(start, s, next) else Some(s);
    if r.Some? { RemoveEven(start, r.value, x, x); }
  }

  lemma AddEven(start: int, s: Raw, x: int, p: Word)
    requires Even(s.w, x) && WordAligned(s.head) && WordAligned(p)
    ensures EvenAfter(RawAdd(start, s, p), x)
  {
    assert WordAligned(0) by { assert 0 == Four(0); }
    PutEven(s.w, x, p, s.head);
    PutEven(PutNext(s.w, p, s.head), x, s.head, p);
    PutEven(PutPrev(PutNext(s.w, p, s.head), s.head, p), x, p, 0);
  }

  lemma SizesAligned(size: Word, header: Word)
    requires WordAligned(size)
    ensures WordAligned(Sum(size, GetSize(header)))
  {
    var k :| size == Four(k);
    var j := header / 8;
    assert GetSize(header) == 8 * j;
    assert size + GetSize(header) == Four(k + 2 * j);
    assert size + GetSize(header) - WORD_LIMIT == Four(k + 2 * j - 0x4000_0000);
  }

  lemma TagsEven(start: int, s: Raw, x: Word, size: Word)
    requires Even(s.w, x) && WordAligned(s.head) && WordAligned(size)
    ensures EvenAfter(RawTags(start, s, x, size), x)
  {
    hide GetSize, Sum;
    var next: int := Sum(x, GetSize(At(s.w, x - 4)));
    var header := At(s.w, next - 4);
    var whole := Sum(size, GetSize(header));
    SizesAligned(size, header);
    WriteEven(s.w, x, x - 4, whole);
    WriteEven(s.w[x - 4 := whole], x, Sum(x, GetSize(whole)) - 8, whole);
  }

  lemma CoalesceEven(start: int, s: Raw, x: Word, size: Word)
    requires Even(s.w, x) && WordAligned(s.head) && WordAligned(x) && WordAligned(size)
    ensures EvenAfter(RawCoalesce(start, s, x, size), x)
  {
    hide RawUnlink, RawTags, RawAdd, Even, IsAllocated;
    var nextFree := IsAllocated(At(s.w, x + size - 4)) == 0;
    UnlinkEven(start, s, x, x + size, nextFree);
    match RawUnlink(start, s, x, x + size, nextFree)
    case None =>
    case Some(s1) =>
      TagsEven(start, s1, x, size);
      match if nextFree then RawTags(start, s1, x, size) else Some(s1)
      case None =>
      case Some(s2) => AddEven(start, s2, x, x);
  }

  /** The list head from which `mm_init` fails. */
  function BadHead(start: int): int { start + 16 + H.CHUNK_SIZE - 8 }

  /** Adding the first block writes its address over the epilogue header. */
  lemma AddedWords(start: int, w: Words)
    requires 0 < start && Aligned(start) && start + MAX_HEAP < WORD_LIMIT
    ensures var x := start + 16; var w1 := AddWords(RawTagged(w, start), BadHead(start), x);
      && At(w1, x - 12) == At(w1, x - 8) == 9 && At(w1, x - 4) == H.CHUNK_SIZE
      && At(w1, x) == BadHead(start) && At(w1, x + 4) == 0 && At(w1, x + H.CHUNK_SIZE - 4) == x
      && At(w1, x + H.CHUNK_SIZE) == At(w, x + H.CHUNK_SIZE)
      && At(w1, x + H.CHUNK_SIZE + 4) == At(w, x + H.CHUNK_SIZE + 4)
  {
  }

  lemma FirstAligned(start: int)
    requires 0 < start && Aligned(start) && start + MAX_HEAP < WORD_LIMIT
    ensures var x := start + 16;
      && Aligned(x) && WordAligned(x) && WordAligned(x - 4) && WordAligned(x + 4)
      && WordAligned(BadHead(start)) && Reach(start, BadHead(start)) && Reach(start, BadHead(start) + 4)
      && WordAligned(0) && WordAligned(H.CHUNK_SIZE)
  {
    var x := start + 16;
    SmallMultiples();
    AlignedSum(start, 16);
    AlignedSum(x, H.CHUNK_SIZE);
    AlignedWords(x);
    AlignedWords(x + H.CHUNK_SIZE);
    AlignedWords(H.CHUNK_SIZE);
    assert 0 == Four(0);
  }

  lemma AddedEven(start: int, w: Words)
    requires 0 < start && Aligned(start) && start + MAX_HEAP < WORD_LIMIT
    ensures Even(AddWords(RawTagged(w, start), BadHead(start), start + 16), start + 16)
  {
    hide AddWords, RawTagged;
    AddedWords(start, w);
    FirstAligned(start);
  }

  lemma StartEven(w: Words, x: int)
    requires Even(w, x)
    ensures Even(PutPrev(PutNext(w, x, 0), x, 0), x)
  {
    assert WordAligned(0) by { assert 0 == Four(0); }
    PutEven(w, x, x, 0);
    PutEven(PutNext(w, x, 0), x, x, 0);
  }

  /** Whatever lies beyond the break, `mm_init` never ends with its epilogue header. */
  lemma BadHeadNoEpilogue(start: int, w: Words)
    requires 0 < start && Aligned(start) && start + MAX_HEAP < WORD_LIMIT
    ensures match RawInit(start, w, BadHead(start))
      case None => true
      case Some(s) => At(s.w, start + 16 + H.CHUNK_SIZE - 4) != 1
  {
    hide RawCoalesce;
    var x := start + 16;
    FirstAligned(start);
    AddedEven(start, w);
    var s1 := Raw(AddWords(RawTagged(w, start), BadHead(start), x), x);
    CoalesceEven(start, s1, x, H.CHUNK_SIZE);
    match RawCoalesce(start, s1, x, H.CHUNK_SIZE)
    case None =>
    case Some(s2) => StartEven(s2.w, x);
  }

  lemma PlainSizes(x: Word)
    requires Aligned(x)
    ensures GetSize(9) == 8 && IsAllocated(9) == IsAllocated(1) == 1 && IsAllocated(x) == IsAllocated(H.CHUNK_SIZE) == 0
    ensures GetSize(H.CHUNK_SIZE) == H.CHUNK_SIZE && GetSize(0) == 0
  {
    var k :| x == Eight(k);
    Mod2(4 * k, 0);
  }

  /** `coalesce` of the first block, when zeros lie beyond the break. */
  lemma CoalesceOnZeros(start: int, w: Words)
    requires 0 < start && Aligned(start) && start + MAX_HEAP < WORD_LIMIT
    requires var x := start + 16;
      && At(w, x - 4) == H.CHUNK_SIZE && At(w, x) == BadHead(start) && At(w, x + 4) == 0
      && At(w, x + H.CHUNK_SIZE - 4) == x && At(w, x + H.CHUNK_SIZE) == At(w, x + H.CHUNK_SIZE + 4) == 0
    ensures var x := start + 16;
      match RawCoalesce(start, Raw(w, x), x, H.CHUNK_SIZE)
      case None => false
      case Some(s) => At(s.w, x + H.CHUNK_SIZE - 4) == x
  {
    hide GetSize, IsAllocated;
    var x := start + 16;
    FirstAligned(start);
    PlainSizes(x);
    var w1 := PutPrev(w, BadHead(start), 0);
    assert RawUnlink(start, Raw(w, x), x, x + H.CHUNK_SIZE, true) == Some(Raw(w1, BadHead(start)));
    var w2: Words := w1[x - 4 := H.CHUNK_SIZE][BadHead(start) := H.CHUNK_SIZE];
    assert RawTags(start, Raw(w1, BadHead(start)), x, H.CHUNK_SIZE) == Some(Raw(w2, BadHead(start)));
  }

  /** On memory that is zero beyond the break the run does end, with the first block's
      address for an epilogue header. */
  lemma BadHeadOnZeros(start: int, w: Words)
    requires 0 < start && Aligned(start) && start + MAX_HEAP < WORD_LIMIT
    requires At(w, start + 16 + H.CHUNK_SIZE) == At(w, start + 16 + H.CHUNK_SIZE + 4) == 0
    ensures match RawInit(start, w, BadHead(start))
      case None => false
      case Some(s) => At(s.w, start + 16 + H.CHUNK_SIZE - 4) == start + 16
  {
    hide RawCoalesce, AddWords, RawTagged;
    FirstAligned(start);
    AddedWords(start, w);
    CoalesceOnZeros(start, AddWords(RawTagged(w, start), BadHead(start), start + 16));
  }

  // ---------- every other head ----------

  /** A list head that an earlier heap in the same arena can leave. */
  ghost predicate LeftOver(start: int, head: int) {
    head == 0 || (Aligned(head) && start + 16 <= head <= start + MAX_HEAP - 8)
  }

  /** The tags of the prologue, of the first block `x` and of the epilogue above it. */
  ghost predicate FirstTags(w: Words, x: int) {
    && At(w, x - 12) == At(w, x - 8) == 9 && At(w, x - 4) == At(w, x + H.CHUNK_SIZE - 8) == H.CHUNK_SIZE
    && At(w, x + H.CHUNK_SIZE - 4) == 1
  }

  /** A head whose previous-link word is none of those tags. */
  ghost predicate GoodHead(start: int, head: int) {
    LeftOver(start, head) && head != BadHead(start)
  }

  lemma GoodLink(start: int, head: int)
    requires Aligned(start) && GoodHead(start, head) && head != 0
    ensures var x, q := start + 16, head + 4;
      && Reach(start, q) && x < q && q != x + H.CHUNK_SIZE - 8 && q != x + H.CHUNK_SIZE - 4
  {
    SmallMultiples();
    AlignedSum(start, 16);
    AlignedSum(start + 16, H.CHUNK_SIZE);
    AlignedSum(start + 16 + H.CHUNK_SIZE, 8);
    AlignedApart(head, start + 16 + H.CHUNK_SIZE - 8);
    AlignedWords(head);
  }

  /** `add_to_free_list` of the first block over such a head keeps the tags. */
  lemma GoodAdd(start: int, w: Words, head: Word)
    requires 0 < start && Aligned(start) && start + MAX_HEAP < WORD_LIMIT
    requires GoodHead(start, head) && FirstTags(w, start + 16)
    ensures var x := start + 16; var w1 := AddWords(w, head, x);
      && RawAdd(start, Raw(w, head), x) == Some(Raw(w1, x))
      && FirstTags(w1, x) && At(w1, x) == head && At(w1, x + 4) == 0
  {
    hide LeftOver, GoodHead, Reach;
    if head != 0 {
      GoodLink(start, head);
      FirstAligned(start);
      AlignedApart(head, start + 16) by { GoodAligned(start, head); }
    }
  }

  lemma GoodAligned(start: int, head: int)
    requires GoodHead(start, head) && head != 0
    ensures Aligned(head)
  {
  }

  /** `coalesce` then only takes the block off the list and puts it back. */
  lemma GoodCoalesce(start: int, w: Words, head: Word)
    requires 0 < start && Aligned(start) && start + MAX_HEAP < WORD_LIMIT
    requires GoodHead(start, head) && FirstTags(w, start + 16)
    requires At(w, start + 16) == head && At(w, start + 20) == 0
    ensures match RawCoalesce(start, Raw(w, start + 16), start + 16, H.CHUNK_SIZE)
      case None => false
      case Some(s) => FirstTags(s.w, start + 16)
  {
    hide GetSize, IsAllocated, AddWords, LeftOver, GoodHead, RawAdd, Reach;
    var x := start + 16;
    FirstAligned(start);
    PlainSizes(x);
    var w1 := PutPrev(w, head, 0);
    if head != 0 { GoodLink(start, head); }
    assert RawUnlink(start, Raw(w, x), x, x + H.CHUNK_SIZE, false) == Some(Raw(w1, head));
    assert FirstTags(w1, x);
    GoodAdd(start, w1, head);
  }

  /** So `mm_init` ends with one free block, alone on the list. */
  lemma GoodInit(start: int, w: Words, head: Word)
    requires 0 < start && Aligned(start) && start + MAX_HEAP < WORD_LIMIT && GoodHead(start, head)
    ensures var x := start + 16;
      match RawInit(start, w, head)
      case None => false
      case Some(s) => s.head == x && FirstTags(s.w, x) && At(s.w, x) == At(s.w, x + 4) == 0
  {
    hide RawCoalesce, RawAdd, AddWords, LeftOver, GoodHead;
    var x, t := start + 16, RawTagged(w, start);
    assert FirstTags(t, x);
    GoodAdd(start, t, head);
    GoodCoalesce(start, AddWords(t, head, x), head);
  }

  lemma InitialRep(w: Words, start: int)
    requires FirstTags(w, start + 16) && At(w, start + 16) == At(w, start + 20) == 0
    ensures Rep(w, start + 16, H.Initial(start + 8))
  {
    var t := H.Initial(start + 8).t;
    assert forall a :: a in t.blocks ==> a == start + 8 || a == start + 16;
  }

  // ---------- the same steps on a sound heap ----------

  /** Words and list head represent heap `h` in the arena. */
  ghost predicate HeapAt(start: int, s: Raw, h: H.Heap) {
    && 0 < start && Aligned(start) && start + MAX_HEAP < WORD_LIMIT
    && H.Wf(h) && h.stale == 0 && h.t.lo == start + 8 && h.t.hi <= start + MAX_HEAP
    && Rep(s.w, s.head, h)
  }

  lemma FreeReach(start: int, s: Raw, h: H.Heap, x: int)
    requires HeapAt(start, s, h) && Free(h.t, x)
    ensures 0 < x < WORD_LIMIT && Aligned(x) && Taggable(h.t.blocks[x]) && Next(h.t, x) <= h.t.hi
    ensures Reach(start, x - 4) && Reach(start, x) && Reach(start, x + 4) && Reach(start, Next(h.t, x) - 8)
  {
    BlockPlaced(h.t, x);
    AlignedWords(x);
    AlignedSum(x, h.t.blocks[x].size);
    AlignedWords(x + h.t.blocks[x].size);
  }

  /** The header of a block, or the epilogue header. */
  lemma HeaderAt(start: int, s: Raw, h: H.Heap, x: int)
    requires HeapAt(start, s, h) && (Free(h.t, x) || Live(h.t, x) || x == h.t.hi)
    ensures IsAllocated(At(s.w, x - 4)) == 0 <==> Free(h.t, x)
    ensures Free(h.t, x) ==> At(s.w, x - 4) == GetSize(At(s.w, x - 4)) == h.t.blocks[x].size
  {
    Bounds(h.t);
    if x == h.t.hi {
      Mod2(0, 1);
    } else {
      BlockPlaced(h.t, x);
      assert HeadTag(s.w, h.t, x);
      TagFields(h.t.blocks[x]);
    }
  }

  /** `remove_from_free_list` of any entry, at the head, in the middle or at the end. */
  lemma RawRemoveRep(start: int, s: Raw, h: H.Heap, p: int)
    requires HeapAt(start, s, h) && p in h.list
    ensures match RawRemove(start, s, p)
      case None => false
      case Some(u) => HeapAt(start, u, H.Drop(h, p))
  {
    hide Rep, Tiling, H.StaleOk, Distinct;
    forall a | a in h.list ensures a < WORD_LIMIT { FreeReach(start, s, h, a); }
    RemoveRep(s.w, s.head, h, p);
    var prev, next := At(s.w, p + 4), At(s.w, p);
    if Free(h.t, prev) { FreeReach(start, s, h, prev); }
    if Free(h.t, next) { FreeReach(start, s, h, next); }
  }

  lemma RawAddRep(start: int, s: Raw, h: H.Heap, p: Word)
    requires HeapAt(start, s, h) && Free(h.t, p) && p !in h.list
    ensures match RawAdd(start, s, p)
      case None => false
      case Some(u) => HeapAt(start, u, H.Push(h, p))
  {
    AddRep(s.w, s.head, h, p);
    HeadIs(s.w, s.head, h);
    if s.head != 0 { FreeReach(start, s, h, s.head); }
  }

  /** The removals of `coalesce` take the whole free run off the list. */
  lemma RawUnlinkRep(start: int, s: Raw, h: H.Heap, x: Word, nextFree: bool)
    requires HeapAt(start, s, h) && H.CanCoalesce(h, x) && h.t.lo < x && !Free(h.t, Prev(h.t, x))
    requires nextFree == Free(h.t, Next(h.t, x))
    ensures match RawUnlink(start, s, x, Next(h.t, x), nextFree)
      case None => false
      case Some(u) => HeapAt(start, u, h.(list := Without(h.list, KeysIn(h.t, x, RunEnd(h.t, x)))))
  {
    hide HeapAt, RawRemove, Tiling, IsAllocated;
    var next := Next(h.t, x);
    H.RunOff(h, x);
    var l1 := Without(h.list, if nextFree then {next} else {});
    WithoutNone(h.list, {});
    WithoutNone(l1, {});
    var h1 := h.(list := l1);
    if nextFree { RawRemoveRep(start, s, h, next); }
    var s1 := if nextFree then RawRemove(start, s, next).value else s;
    assert HeapAt(start, s1, h1);
    HeaderAt(start, s1, h1, x);
    RawRemoveRep(start, s1, h1, x);
  }

  /** The tags it writes make the block and its free neighbour one block. */
  lemma RawTagsRep(start: int, s: Raw, h: H.Heap, x: Word)
    requires HeapAt(start, s, h) && Free(h.t, x) && Free(h.t, Next(h.t, x)) && x != h.t.lo
    requires var e := Next(h.t, Next(h.t, x)); Mergeable(h.t, x, e) && H.Wf(h.(t := Merge(h.t, x, e, false)))
    requires forall a :: a in h.list ==> !(x <= a < Next(h.t, Next(h.t, x)))
    requires h.t.blocks[x].size < WORD_LIMIT
    ensures match RawTags(start, s, x, h.t.blocks[x].size)
      case None => false
      case Some(u) => HeapAt(start, u, h.(t := Merge(h.t, x, Next(h.t, Next(h.t, x)), false)))
  {
    hide GetSize, IsAllocated, Tiling, KeysIn, H.StaleOk;
    var next := Next(h.t, x);
    var whole := h.t.blocks[x].size + h.t.blocks[next].size;
    FreeReach(start, s, h, x);
    FreeReach(start, s, h, next);
    HeaderAt(start, s, h, x);
    HeaderAt(start, s, h, next);
    AlignedSum(h.t.blocks[x].size, h.t.blocks[next].size);
    TagFields(Block(whole, false));
    var w' := s.w[x - 4 := whole][x + whole - 8 := whole];
    MergeRep(s.w, w', s.head, h, x, x + whole);
  }

  /** `coalesce` above an allocated block, on any sound heap, does what the allocator's own does. */
  lemma RawCoalesceRep(start: int, s: Raw, h: H.Heap, x: Word)
    requires HeapAt(start, s, h) && H.CanCoalesce(h, x) && h.t.lo < x && !Free(h.t, Prev(h.t, x))
    requires h.t.blocks[x].size < WORD_LIMIT
    ensures match RawCoalesce(start, s, x, h.t.blocks[x].size)
      case None => false
      case Some(u) => HeapAt(start, u, H.Coalesce(h, x))
  {
    hide HeapAt, RawUnlink, RawTags, RawAdd, Tiling, IsAllocated, Merge, KeysIn, NoAdjacentFree;
    var next := Next(h.t, x);
    var nextFree := Free(h.t, next);
    FreeReach(start, s, h, x);
    NextKnown(start, s, h, x);
    H.CoalesceSteps(h, x);
    RawUnlinkRep(start, s, h, x, nextFree);
    var off := h.(list := Without(h.list, KeysIn(h.t, x, RunEnd(h.t, x))));
    var u := RawUnlink(start, s, x, next, nextFree).value;
    if nextFree {
      RawTagsRep(start, u, off, x);
      RawAddRep(start, RawTags(start, u, x, h.t.blocks[x].size).value, off.(t := Coalesced(h.t, x)), x);
    } else {
      MergeAlone(h.t, x);
      RawAddRep(start, u, off, x);
    }
  }

  lemma NextKnown(start: int, s: Raw, h: H.Heap, x: int)
    requires HeapAt(start, s, h) && H.CanCoalesce(h, x) && h.t.lo < x
    ensures var next := Next(h.t, x);
      IsAllocated(At(s.w, next - 4)) == 0 <==> Free(h.t, next)
  {
    BlockPlaced(h.t, x);
    HeaderAt(start, s, h, Next(h.t, x));
  }

  /** A free block without free neighbours stays as it is. */
  lemma MergeAlone(t: Tiles, x: int)
    requires Tiling(t) && Free(t, x)
    ensures Merge(t, x, Next(t, x), false) == t
  {
    assert Merge(t, x, Next(t, x), false).blocks == t.blocks;
  }

  // ---------- the steps, on memory ----------

  lemma ReachMod(start: int, x: int)
    requires 0 < start && Aligned(start)
    ensures Reach(start, x) <==> start <= x <= start + MAX_HEAP - 4 && x % 4 == 0
  {
    if x % 4 == 0 { assert x == Four(x / 4); }
  }

  /** Whether an access at `x` stays in the arena, at a word boundary. */
  method CanReach(a: Allocator, x: int) returns (ok: bool)
    requires a.m.Valid()
    ensures ok == Reach(a.m.start, x) == a.m.Addr(x)
  {
    ReachMod(a.m.start, x);
    ok := a.m.start <= x <= a.m.start + MAX_HEAP - 4 && x % 4 == 0;
  }

  ghost function RawOf(a: Allocator): Raw
    reads a, a.m
  {
    Raw(a.m.words, a.freeList)
  }

  /** A step ended the run, or left memory and list head as `r` says. */
  ghost predicate Done(a: Allocator, ok: bool, r: Option<Raw>)
    reads a, a.m
  {
    ok == r.Some? && (ok ==> RawOf(a) == r.value)
  }

  method Remove(a: Allocator, p: Word) returns (ok: bool)
    requires a.m.Valid() && a.m.Addr(p) && a.m.Addr(p + 4)
    modifies a`freeList, a.m`words, a.m.bytes
    ensures a.m.Valid() && Done(a, ok, RawRemove(a.m.start, old(RawOf(a)), p))
  {
    var prev := a.m.GetVal(p + 4);
    var next: int := a.m.GetVal(p);
    var reach := CanReach(a, prev);
    if prev != 0 && !reach { return false; }
    reach := CanReach(a, next + 4);
    if next != 0 && !reach { return false; }
    if prev != 0 {
      a.SetNextFree(prev, next);
      a.SetPrevFree(next, prev);
    } else {
      a.SetPrevFree(next, 0);
      a.freeList := next;
    }
    return true;
  }

  method Add(a: Allocator, p: Word) returns (ok: bool)
    requires a.m.Valid() && a.m.Addr(p) && a.m.Addr(p + 4)
    modifies a`freeList, a.m`words, a.m.bytes
    ensures a.m.Valid() && Done(a, ok, RawAdd(a.m.start, old(RawOf(a)), p))
  {
    var reach := CanReach(a, a.freeList + 4);
    if a.freeList != 0 && !reach { return false; }
    a.SetNextFree(p, a.freeList);
    a.SetPrevFree(a.freeList, p);
    a.SetPrevFree(p, 0);
    a.freeList := p;
    return true;
  }

  method WriteTags(a: Allocator, x: Word, size: Word) returns (ok: bool)
    requires a.m.Valid() && a.m.Addr(x - 4)
    modifies a.m`words, a.m.bytes
    ensures a.m.Valid() && Done(a, ok, RawTags(a.m.start, old(RawOf(a)), x, size))
  {
    hide GetSize, Sum;
    var header := a.m.GetVal(x - 4);
    var next: int := Sum(x, GetSize(header));
    ok := CanReach(a, next - 4);
    if !ok { return false; }
    header := a.m.GetVal(next - 4);
    var whole := Sum(size, GetSize(header));
    var foot: int := Sum(x, GetSize(whole)) - 8;
    ok := CanReach(a, foot);
    if !ok { return false; }
    a.m.SetVal(x - 4, whole);
    a.m.SetVal(foot, whole);
    return true;
  }

  method Unlink(a: Allocator, x: Word, next: Word, nextFree: bool) returns (ok: bool)
    requires a.m.Valid() && a.m.Addr(x - 4) && a.m.Addr(x) && a.m.Addr(x + 4) && a.m.Addr(next) && a.m.Addr(next + 4)
    modifies a`freeList, a.m`words, a.m.bytes
    ensures a.m.Valid() && Done(a, ok, RawUnlink(a.m.start, old(RawOf(a)), x, next, nextFree))
  {
    ok := true;
    if nextFree { ok := Remove(a, next); }
    if !ok { return false; }
    var header := a.m.GetVal(x - 4);
    if IsAllocated(header) == 0 { ok := Remove(a, x); }
  }

  /** `coalesce` once it knows whether the next block is free. */
  method MergeFirst(a: Allocator, x: Word, size: Word, nextFree: bool) returns (ok: bool)
    requires a.m.Valid() && a.m.Addr(x - 4) && a.m.Addr(x) && a.m.Addr(x + 4)
    requires x + size < WORD_LIMIT && a.m.Addr(x + size) && a.m.Addr(x + size + 4)
    requires nextFree == (IsAllocated(At(a.m.words, x + size - 4)) == 0)
    modifies a`freeList, a.m`words, a.m.bytes
    ensures a.m.Valid() && Done(a, ok, RawCoalesce(a.m.start, old(RawOf(a)), x, size))
  {
    hide RawUnlink, RawTags, RawAdd, IsAllocated;
    ok := Unlink(a, x, x + size, nextFree);
    if !ok { return false; }
    if nextFree { ok := WriteTags(a, x, size); }
    if !ok { return false; }
    ok := Add(a, x);
  }

  // ---------- mm_init ----------

  /** The words `mm_init` has written by the time it calls `coalesce`, and the tags there. */
  lemma TaggedReach(a: Allocator)
    requires a.m.Valid()
    ensures var x := a.m.start + 16;
      && a.m.Addr(x - 12) && a.m.Addr(x - 8) && a.m.Addr(x - 4) && a.m.Addr(x) && a.m.Addr(x + 4)
      && a.m.Addr(x + H.CHUNK_SIZE - 4) && a.m.Addr(x + H.CHUNK_SIZE) && a.m.Addr(x + H.CHUNK_SIZE + 4)
      && Aligned(x) && x + H.CHUNK_SIZE < WORD_LIMIT
  {
    var x := a.m.start + 16;
    SmallMultiples();
    AlignedSum(a.m.start, 16);
    AlignedSum(a.m.start, 8);
    AlignedSum(x, H.CHUNK_SIZE);
    AlignedWords(a.m.start + 8);
    AlignedWords(x);
    AlignedWords(x + H.CHUNK_SIZE);
  }

  /** `coalesce` of the first block: the prologue below is allocated, and the word above is
      whatever `add_to_free_list` left there. */
  method CoalesceFirst(a: Allocator, x: Word) returns (ok: bool)
    requires a.m.Valid() && x == a.m.start + 16
    requires At(a.m.words, x - 12) == At(a.m.words, x - 8) == 9 && At(a.m.words, x - 4) == H.CHUNK_SIZE
    modifies a`freeList, a.m`words, a.m.bytes
    ensures a.m.Valid() && Done(a, ok, RawCoalesce(a.m.start, old(RawOf(a)), x, H.CHUNK_SIZE))
  {
    hide GetSize, IsAllocated;
    TaggedReach(a);
    PlainSizes(x);
    var below := a.m.GetVal(x - 8);
    var header := a.m.GetVal(x - GetSize(below) - 4);
    var footer := a.m.GetVal(x - GetSize(below) + GetSize(header) - 8);
    assert IsAllocated(footer) == 1;
    header := a.m.GetVal(x - 4);
    var size := GetSize(header);
    var above := a.m.GetVal(x + size - 4);
    ok := MergeFirst(a, x, size, IsAllocated(above) == 0);
  }

  /** What `mm_init` does before it meets the free list. */
  method TagFirst(a: Allocator) returns (x: Word)
    requires a.m.Valid() && a.m.brk == a.m.start
    modifies a`heapPtr, a.m`words, a.m`brk, a.m.bytes
    ensures a.m.Valid() && x == a.m.start + 16 && a.m.brk == x + H.CHUNK_SIZE
    ensures a.m.words == RawTagged(old(a.m.words), a.m.start)
  {
    FirstAligned(a.m.start);
    SmallMultiples();
    var base := a.m.Sbrk(16);
    a.heapPtr := base;
    a.WritePrologue(a.heapPtr);
    a.heapPtr := a.heapPtr + 8;
    x := a.m.Sbrk(H.CHUNK_SIZE);
    a.TagNew(x, H.CHUNK_SIZE);
  }

  /** What any head but the bad one leads to is the heap that `mm_init` is to set up. */
  lemma GoodOutcome(a: Allocator)
    requires a.m.Valid() && a.freeList == a.m.start + 16 && a.m.brk == a.m.start + 16 + H.CHUNK_SIZE
    requires FirstTags(a.m.words, a.m.start + 16) && a.heap == H.Initial(a.m.start + 8)
    requires At(a.m.words, a.m.start + 16) == At(a.m.words, a.m.start + 20) == 0
    ensures a.Valid() && At(a.m.words, a.m.brk - 4) == 1
  {
    SmallMultiples();
    AlignedSum(a.m.start, 8);
    H.InitialInv(a.m.start + 8);
    InitialRep(a.m.words, a.m.start);
  }

  /** The tags below the first block survive its `add_to_free_list`, whatever the head. */
  lemma TagsBelow(start: int, w: Words, head: Word)
    requires 0 < start && Aligned(start) && start + MAX_HEAP < WORD_LIMIT && LeftOver(start, head)
    ensures var x := start + 16; var w1 := AddWords(RawTagged(w, start), head, x);
      At(w1, x - 12) == At(w1, x - 8) == 9 && At(w1, x - 4) == H.CHUNK_SIZE
  {
  }

  /** `mm_init` from any head an earlier heap can leave: it ends, with its epilogue header in
      place, if and only if the head is not the bad one; it then ends with a valid heap. */
  method InitAgain(a: Allocator) returns (done: bool)
    requires a.m.Valid() && a.m.brk == a.m.start && LeftOver(a.m.start, a.freeList)
    modifies a, a.m`words, a.m`brk, a.m.bytes
    ensures a.m.Valid() && a.m.brk == a.m.start + 16 + H.CHUNK_SIZE
    ensures Done(a, done, RawInit(a.m.start, old(a.m.words), old(a.freeList)))
    ensures done && At(a.m.words, a.m.brk - 4) == 1 <==> old(a.freeList) != BadHead(a.m.start)
    ensures old(a.freeList) != BadHead(a.m.start) ==> done && a.Valid() && a.heap == H.Initial(a.m.start + 8)
  {
    hide RawCoalesce, AddWords, RawTagged, H.Initial, Even, RepBut;
    ghost var start, w, head := a.m.start, a.m.words, a.freeList;
    TagsBelow(start, w, head);
    TaggedReach(a);
    done := LinkFirst(a);
    a.heap := H.Initial(start + 8);
    if head == BadHead(start) {
      BadHeadNoEpilogue(start, w);
    } else {
      GoodInit(start, w, head);
      GoodOutcome(a);
    }
  }

  /** The statements of `mm_init`. */
  method LinkFirst(a: Allocator) returns (done: bool)
    requires a.m.Valid() && a.m.brk == a.m.start && LeftOver(a.m.start, a.freeList)
    modifies a`heapPtr, a`freeList, a.m`words, a.m`brk, a.m.bytes
    ensures a.m.Valid() && a.m.brk == a.m.start + 16 + H.CHUNK_SIZE
    ensures Done(a, done, RawInit(a.m.start, old(a.m.words), old(a.freeList)))
  {
    hide RawCoalesce, AddWords, RawTagged;
    TagsBelow(a.m.start, a.m.words, a.freeList);
    TaggedReach(a);
    var x := TagFirst(a);
    done := Add(a, x);
    if !done { return; }
    done := CoalesceFirst(a, x);
    if !done { return; }
    a.freeList := x;
    a.SetNextFree(a.freeList, 0);
    a.SetPrevFree(a.freeList, 0);
  }

  /** The list head between calls is one that the next heap can find. */
  lemma HeadLeftOver(a: Allocator)
    requires a.Valid()
    ensures LeftOver(a.m.start, a.freeList)
  {
    HeadIs(a.m.words, a.freeList, a.heap);
    if a.freeList != 0 {
      FreeIsAddress(a.heap, a.freeList);
      assert Placed(a.heap.t, a.freeList);
    }
  }

  /** `mem_reset_brk` and `mm_init` after any calls: a heap comes out of it if and only if
      those calls did not leave the bad list head. */
  method StartNext(a: Allocator) returns (done: bool)
    requires a.Valid()
    modifies a, a.m, a.m.bytes
    ensures a.m.Valid() && a.m.brk == a.m.start + 16 + H.CHUNK_SIZE
    ensures done && a.Valid() <==> old(a.freeList) != BadHead(a.m.start)
    ensures done && At(a.m.words, a.m.brk - 4) == 1 <==> old(a.freeList) != BadHead(a.m.start)
  {
    HeadLeftOver(a);
    a.m.ResetBrk();
    done := InitAgain(a);
  }
}
