/**
 * The shrinking branch of mm_realloc, run for a request that grows the block: what it reads and
 * writes, step by step, when the block behind is free and reaches the new end. With room behind,
 * the steps come to a merge, a cut and an insertion: a heap of the grown layout.
 */
module Regrowing {
  import opened SizeClasses
  import opened Sizing
  import opened Tags
  import opened Blocks
  import opened Rings
  import opened Layouts
  import opened Heaps
  import opened Coalescing
  import opened Merging
  import opened Fitting
  import opened Listings
  import opened Relisting
  import opened Placing
  import opened Payloads
  import opened Guards
  import opened Machine

  /** The storage is shorter than 2^31 bytes and leaves out the last page of the address space. */
  predicate Mappable(m: Memory, l: Layout) {
    l.brk <= |m| && |m| - l.base < 0x8000_0000 && |m| <= WORD_LIMIT - 0x1000
  }

  /** Neither the space below the storage from base to end, nor the space above it, is shorter than the storage. */
  predicate Spacious(base: int, end: int) { end - base <= base && end - base <= WORD_LIMIT - end }

  /** A request to grow held block p to n bytes, header and footer included. */
  ghost predicate Request(m: Memory, l: Layout, p: int, n: int) {
    && Holds(m, l) && l.AllListed() && l.Classed() && Coalesced(l.blocks) && Mappable(m, l)
    && p in l.blocks && l.blocks[p].alloc
    && l.blocks[p].size < n < WORD_LIMIT && n % 8 == 0
  }

  function ImageOf(m: Memory, l: Layout): Image { Image(m, l.base, |m|) }

  /** The heap's words are words of the storage. */
  lemma HeapInStorage(m: Memory, l: Layout)
    requires 0 < l.base && l.brk <= |m|
    ensures forall a {:trigger IsWord(l.base, l.brk, a)} :: IsWord(l.base, l.brk, a) ==> ImageOf(m, l).Has(a)
  {
  }

  /** The block behind p is free, and the new end lies at least 16 bytes inside it on both sides. */
  predicate RoomBehind(l: Layout, p: int, n: int)
    requires p in l.blocks
  {
    var e := End(l.blocks, p);
    IsFree(l.blocks, e) && e + 16 <= p + n <= End(l.blocks, e) - 16
  }

  /** The block behind p is free, and reaches the new end. */
  ghost predicate EndsWithin(m: Memory, l: Layout, p: int, n: int)
    requires p in l.blocks
  {
    IsFree(l.blocks, End(l.blocks, p)) && p + n <= End(l.blocks, End(l.blocks, p)) <= l.brk
    && p + n + 8 <= |m|
  }

  /** The blocks after p has taken over the free block behind it and kept n bytes of the whole. */
  ghost function MergedCut(l: Layout, p: int, n: int, bulk: bool): Blocks
    requires p in l.blocks && End(l.blocks, p) in l.blocks
  {
    var e := End(l.blocks, p);
    (l.blocks - {e})[p := Block(n, true, bulk)][p + n := Block(End(l.blocks, e) - p - n, false, false)]
  }

  /** The layout of a heap that has served a growth from the free block behind p. */
  ghost function Grown(l: Layout, p: int, n: int): Layout
    requires l.Threaded() && p in l.blocks && End(l.blocks, p) in l.cls && End(l.blocks, p) in l.blocks
  {
    var e := End(l.blocks, p);
    assert l.ListedAt(e);
    l.RemoveThreaded(e);
    var l1, k := l.Remove(e), GetSizeClass(End(l.blocks, e) - p - n);
    assert l1.RingAt(k);
    l1.(blocks := MergedCut(l, p, n, l.blocks[p].bulk)).Insert(p + n, k)
  }

  /** The free block behind p is gone, and what p leaves of it heads the list of its own size's class. */
  ghost predicate TakesOver(l: Layout, l': Layout, p: int, n: int)
    requires p in l.blocks
  {
    var e := End(l.blocks, p);
    && e in l.blocks && l'.blocks == MergedCut(l, p, n, l.blocks[p].bulk) && l'.base == l.base && l'.brk == l.brk
    && HeadsList(l, l', {e}, p + n, GetSizeClass(End(l.blocks, e) - p - n))
  }

  lemma GrownTakesOver(m: Memory, l: Layout, p: int, n: int)
    requires Request(m, l, p, n) && RoomBehind(l, p, n)
    ensures l.Threaded() && End(l.blocks, p) in l.cls && End(l.blocks, p) in l.blocks
    ensures TakesOver(l, Grown(l, p, n), p, n) && Grown(l, p, n).base == l.base && Grown(l, p, n).brk == l.brk
  {
    hide GetSizeClass;
    var e := End(l.blocks, p);
    HoldsTiled(m, l);
    RemoveIsUnlist(l, e);
    l.RemoveThreaded(e);
    assert l.Remove(e).RingAt(GetSizeClass(End(l.blocks, e) - p - n));
  }

  /**
   * A growth with room behind is served in place, by the code as it is: the block keeps its
   * address and bulk tag and becomes exactly as large as asked, what is left of the free block
   * is listed by its size, and every invariant holds again.
   */
  lemma GrowthServed(m: Memory, l: Layout, p: int, n: int)
    requires Request(m, l, p, n) && RoomBehind(l, p, n)
    ensures l.Threaded() && End(l.blocks, p) in l.cls && End(l.blocks, p) in l.blocks && ImageOf(m, l).Cut(p, n).Done?
    ensures
      var m', l' := ImageOf(m, l).Cut(p, n).value, Grown(l, p, n);
      && m' == ImageOf(m'.cells, l)
      && Holds(m'.cells, l') && l'.AllListed() && l'.Classed() && Coalesced(l'.blocks)
      && Live(l'.blocks) == Live(l.blocks)[p := Block(n, true, l.blocks[p].bulk)]
      && Keeps(m, m'.cells, Live(l.blocks))
  {
    hide IsWord, Holds, Keeps, Layout.Tiled, Taken, GetSizeClass, GetLowerBound, Image.Cut, Image.Settle;
    hide Layout.AllListed, Layout.Classed;
    HoldsTiled(m, l);
    RoomInReach(m, l, p, n);
    var q, size, e, bulk := p + n, l.blocks[p].size, End(l.blocks, p), if l.blocks[p].bulk then BULKTAG else FREETAG;
    var rest := End(l.blocks, e) - q;
    CutJoins(m, l, p, n);
    RestTagged(m, l, p, n);
    GrownBlocksBehind(l, p, n);
    OthersStay(l, p, n, l.blocks[p].bulk);
    var m1, l1 := RestMemory(m, l, p, n), RestLayout(l, p, n);
    SettleDone(Taken(m, l, p, size, n, bulk), m1, l1, q, rest);
    KeepsGrown(m, m1, Inserted(m1, l1.Root(GetSizeClass(rest)), q), l, l1, p);
  }

  /** The new end is the end of the heap: the rest's links would lie beyond it. */
  lemma CutOverruns(m: Memory, l: Layout, p: int, n: int)
    requires Request(m, l, p, n) && p + n <= l.brk && p + n + 8 > |m|
    ensures ImageOf(m, l).Cut(p, n) == Wild
  {
    hide IsWord, SizeOf, IsAlloc, BulkBit, Holds, Image.Cut, Image.FreeRest, Pack;
    Around(m, l, p, n);
    CutTagged(m, l, p, n);
    var size, bulk := l.blocks[p].size, if l.blocks[p].bulk then BULKTAG else FREETAG;
    RestOverruns(ImageOf(Retagged(m, p, size, n, bulk), l), p, n, bulk, WORD_LIMIT + size - n);
  }

  /** Only 8 bytes more, with a free block behind: the code leaves the storage. */
  lemma CutStrays(m: Memory, l: Layout, p: int, n: int)
    requires Request(m, l, p, n) && EndsWithin(m, l, p, n) && l.blocks[p].size + 8 == n && Spacious(l.base, |m|)
    ensures ImageOf(m, l).Cut(p, n) == Wild
  {
    hide IsWord, Holds, Image.Cut, Image.Join, Retagged, Unlinked;
    CutCoalesces(m, l, p, n);
    BehindLost(m, l, p, n, if l.blocks[p].bulk then BULKTAG else FREETAG);
  }

  /** Less than 16 bytes would be left of the free block: its end is overwritten, and reads as free. */
  lemma CutSpoils(m: Memory, l: Layout, p: int, n: int)
    requires Request(m, l, p, n) && EndsWithin(m, l, p, n) && l.blocks[p].size + 16 <= n && !RoomBehind(l, p, n)
    ensures ReadsFree(ImageOf(m, l).Cut(p, n), |m|, End(l.blocks, End(l.blocks, p)))
  {
    hide IsWord, Taken, Image.Cut, Image.SetTag, Image.Insert, Holds, SizeOf, IsAlloc, BulkBit, Wrap, Coalesced;
    hide Layout.AllListed, Layout.Classed;
    var q, size, e, bulk := p + n, l.blocks[p].size, End(l.blocks, p), if l.blocks[p].bulk then BULKTAG else FREETAG;
    var f := End(l.blocks, e);
    Around(m, l, p, n);
    ReadBlock(m, l, e);
    CutJoins(m, l, p, n);
    FirstList(m, l, p, n, bulk);
    OctetSum(e, l.blocks[e].size);
    OctetSum(f, q);
    OctetGap(f - q);
    var i, rest := ImageOf(Taken(m, l, p, size, n, bulk), l), f - q;
    if i.Settle(q, rest).Done? {
      WrapSame(q + rest - 8);
      TagIfDone(i, q, rest, FREETAG, q + rest - 8);
      InsertLeaves(i.SetTag(q, rest, FREETAG).value, q, rest, f - 4);
      OctetFree(i.base);
      OctetFree(0);
    }
  }

  // The branch step by step.

  /** The words around p and around its new end. */
  lemma Around(m: Memory, l: Layout, p: int, n: int)
    requires Request(m, l, p, n) && p + n <= l.brk
    ensures
      var i, e := ImageOf(m, l), End(l.blocks, p);
      && 0 < l.base && l.base + 272 <= p && p + 16 <= e && e + 8 <= p + n && l.brk <= |m|
      && i.Has(p - 4) && i.Has(e - 8) && i.Has(e - 4) && i.Has(p + n - 8) && i.Has(p + n - 4)
      && p % 8 == 0 && e % 8 == 0 && (p + n) % 8 == 0
      && (n - l.blocks[p].size) % 8 == 0
      && SizeOf(m[p - 4]) == l.blocks[p].size && BulkBit(m[p - 4]) == (if l.blocks[p].bulk then BULKTAG else FREETAG)
  {
    hide IsWord, SizeOf, IsAlloc, BulkBit, Holds;
    ReadBlock(m, l, p);
    HeapInStorage(m, l);
    OctetSum(p, l.blocks[p].size);
    OctetSum(p, n);
    OctetSum(n, l.blocks[p].size);
    WordsAround(l.base, l.brk, p);
    WordsAround(l.base, l.brk, End(l.blocks, p));
    WordsAround(l.base, l.brk, p + n);
  }

  /** The memory once both tags of the block, and both of the part "cut off", are written. */
  function Retagged(m: Memory, p: int, size: int, n: int, bulk: int): (r: Memory)
    requires 4 <= p && 16 <= size && size + 8 <= n && p + n <= |m|
    ensures |r| == |m|
  {
    var w := Pack(WORD_LIMIT + size - n, bulk);
    m[p - 4 := Pack(n, bulk + ALLOCTAG)][p + n - 8 := Pack(n, bulk + ALLOCTAG)][p + n - 4 := w][p + size - 8 := w]
  }

  /** The branch writes four tags. */
  lemma CutTagged(m: Memory, l: Layout, p: int, n: int)
    requires Request(m, l, p, n) && p + n <= l.brk
    ensures
      var size, bulk := l.blocks[p].size, if l.blocks[p].bulk then BULKTAG else FREETAG;
      && 4 <= p && 16 <= size && size + 8 <= n && p + n <= |m|
      && ImageOf(m, l).Cut(p, n)
         == ImageOf(Retagged(m, p, size, n, bulk), l).FreeRest(p, WORD_LIMIT + size - n)
  {
    hide IsWord, SizeOf, IsAlloc, BulkBit, Holds, Wrap, Image.CutOff, Image.SetTag, Image.FreeRest;
    Around(m, l, p, n);
    var i, size, bulk := ImageOf(m, l), l.blocks[p].size, if l.blocks[p].bulk then BULKTAG else FREETAG;
    GetDone(i, p - 4);
    WrapSame(p + n - 8);
    TagDone(i, p, n, bulk + ALLOCTAG, p + n - 8);
    var w := Pack(n, bulk + ALLOCTAG);
    WrappedSize(size, n);
    CutOffDone(i.(cells := m[p - 4 := w][p + n - 8 := w]), p, size, n, bulk);
  }

  /** Root of the list of the largest blocks, where a wrapped size leads. */
  function LastRoot(l: Layout): int { l.base + 8 * (SIZE_CLASS_NUM - 1) }

  /** Where the first block of that list can be. */
  lemma LastList(m: Memory, l: Layout, p: int, n: int)
    requires Request(m, l, p, n) && EndsWithin(m, l, p, n)
    ensures 0 < l.base && LastRoot(l) + 24 <= p && l.brk <= |m|
    ensures
      var h, e := m[LastRoot(l)], End(l.blocks, p);
      && l.base <= h && h + 8 <= l.brk && h % 8 == 0 && m[h + 4] == LastRoot(l)
      && ImageOf(m, l).Has(h) && ImageOf(m, l).Has(h + 4) && ImageOf(m, l).Has(LastRoot(l))
      && (h == LastRoot(l) || h == e || (LastRoot(l) + 24 <= h && h + 16 <= p) || End(l.blocks, e) <= h)
      && h != p + n
  {
    hide IsWord;
    var c := SIZE_CLASS_NUM - 1;
    ReadBlock(m, l, p);
    InsertAccess(m, l, p, c);
    HeapInStorage(m, l);
    assert l.RingAt(c) && Linked(m, l.rings[c]) && LinkAt(m, l.rings[c], 0);
    var h, e := m[LastRoot(l)], End(l.blocks, p);
    NodeOctets(m, l, c);
    if h != LastRoot(l) {
      assert l.ListedAt(h);
      assert InExtent(l.blocks, h, l.First(), l.brk) && InExtent(l.blocks, e, l.First(), l.brk);
      assert Apart(l.blocks, h, p) && Apart(l.blocks, p, h) && Apart(l.blocks, h, e) && Apart(l.blocks, e, h);
    }
  }

  lemma NodeOctets(m: Memory, l: Layout, c: int)
    requires Holds(m, l) && 0 <= c < |l.rings| && l.RingAt(c)
    ensures l.rings[c][1] % 8 == 0
  {
    if l.rings[c][1] == l.Root(c) {
      OctetSum(l.First(), 8 * c - 272) by { assert (8 * (c - 34)) % 8 == 0; }
    } else {
      assert l.ListedAt(l.rings[c][1]) && Octets(l.blocks, l.rings[c][1]);
    }
  }

  /** The part "cut off", of wrapped size, enters the last list. */
  lemma RestListed(m: Memory, l: Layout, p: int, n: int)
    requires Request(m, l, p, n) && EndsWithin(m, l, p, n)
    ensures
      var size, bulk := l.blocks[p].size, if l.blocks[p].bulk then BULKTAG else FREETAG;
      && 4 <= p && 16 <= size && size + 8 <= n && p + n <= |m|
      && var m2 := Retagged(m, p, size, n, bulk);
      && 0 <= LastRoot(l) < |m2| && 0 <= m2[LastRoot(l)] && m2[LastRoot(l)] + 4 < |m2| && p + n + 4 < |m2|
      && m2[LastRoot(l)] == m[LastRoot(l)]
      && ImageOf(m, l).Cut(p, n) == ImageOf(Inserted(m2, LastRoot(l), p + n), l).Coalesce(p + n)
  {
    hide IsWord, SizeOf, IsAlloc, BulkBit, Holds, Wrap, Image.Cut, Image.Insert, Image.Coalesce, GetSizeClass;
    Around(m, l, p, n);
    LastList(m, l, p, n);
    CutTagged(m, l, p, n);
    var size, bulk := l.blocks[p].size, if l.blocks[p].bulk then BULKTAG else FREETAG;
    var m2 := Retagged(m, p, size, n, bulk);
    NextAfterCut(ImageOf(m2, l), p, n, bulk);
    WrappedClass(WORD_LIMIT + size - n);
    WordsAround(l.base, |m|, p + n);
    HeapInStorage(m2, l);
    InsertDone(ImageOf(m2, l), p + n, WORD_LIMIT + size - n);
    NextAfterCut(ImageOf(Inserted(m2, LastRoot(l), p + n), l), p, n, bulk);
  }

  /** m3 is the heap with the part "cut off" listed. */
  ghost predicate Listed(m: Memory, l: Layout, p: int, n: int, m3: Memory) {
    && Request(m, l, p, n) && EndsWithin(m, l, p, n)
    && var size, bulk := l.blocks[p].size, if l.blocks[p].bulk then BULKTAG else FREETAG;
    && 4 <= p && 16 <= size && size + 8 <= n && p + n + 4 < |m|
    && var m2 := Retagged(m, p, size, n, bulk);
    && 0 <= LastRoot(l) < |m2| && 0 <= m2[LastRoot(l)] && m2[LastRoot(l)] + 4 < |m2|
    && m3 == Inserted(m2, LastRoot(l), p + n)
  }

  lemma ListedRequest(m: Memory, l: Layout, p: int, n: int, m3: Memory)
    requires Listed(m, l, p, n, m3)
    ensures Request(m, l, p, n) && EndsWithin(m, l, p, n) && p + n <= l.brk
  {
  }

  /** What coalesce reads around the new end q: an allocated block before it, a free one "behind" it. */
  lemma RestSeen(m: Memory, l: Layout, p: int, n: int, m3: Memory)
    requires Listed(m, l, p, n, m3)
    ensures
      var q, e, h := p + n, End(l.blocks, p), m[LastRoot(l)];
      && |m3| == |m| && l.base + 272 <= p && q + 8 <= |m| && e + 8 <= q
      && IsAlloc(m3[p - 4]) && SizeOf(m3[p - 4]) == n && m3[q - 8] == m3[p - 4]
      && m3[q] == h && m3[q + 4] == LastRoot(l)
      && (h != q - 8 ==> SizeOf(m3[q - 4]) == WORD_LIMIT + e - q)
      && (h == q - 8 ==> m3[q - 4] == q)
      && m3[e - 4] == m[e - 4]
  {
    hide IsWord, SizeOf, IsAlloc, BulkBit, Holds;
    Around(m, l, p, n);
    LastList(m, l, p, n);
    var size, bulk := l.blocks[p].size, if l.blocks[p].bulk then BULKTAG else FREETAG;
    PackDecodes(n, true, bulk == BULKTAG, false);
    WrappedSize(size, n);
    SizeDecodes(WORD_LIMIT + size - n, bulk);
  }

  /** Twice an address of the heap is no address of the heap. */
  lemma DoubleOutside(i: Image, q: int)
    requires Spacious(i.base, i.end) && 0 < i.base < q <= i.end < WORD_LIMIT
    ensures i.Get(Wrap(q + q) - 4) == Wild
  {
    if 2 * q < WORD_LIMIT {
      WrapSame(2 * q);
      OutsideHeap(i, 2 * q - 4);
    } else {
      var a := 2 * q - WORD_LIMIT;
      WrapSame(a);
      if a >= 4 { OutsideHeap(i, a - 4); } else { WrapSame(a - 4 + WORD_LIMIT); }
    }
  }

  /** So coalesce finds an allocated block before the new end, and goes on to the block behind p. */
  lemma SeesNeighbours(m: Memory, l: Layout, p: int, n: int, m3: Memory)
    requires Listed(m, l, p, n, m3)
    ensures
      var i, q, e := ImageOf(m3, l), p + n, End(l.blocks, p);
      && i.TagBefore(q) == Done(m3[p - 4]) && IsAlloc(m3[p - 4])
      && (m[LastRoot(l)] != q - 8 ==>
        && i.NextOf(q) == Done(e) && i.SizeAt(q - 4) == Done(WORD_LIMIT + e - q)
        && i.TagBehind(q) == Done(m[e - 4]) && !IsAlloc(m[e - 4]))
      && (m[LastRoot(l)] == q - 8 && Spacious(l.base, |m|) ==> i.TagBehind(q) == Wild)
  {
    hide IsWord, SizeOf, IsAlloc, BulkBit, Holds, Wrap, Listed;
    RestSeen(m, l, p, n, m3);
    ListedRequest(m, l, p, n, m3);
    Around(m, l, p, n);
    ReadNext(m, l, p);
    var i, q, e := ImageOf(m3, l), p + n, End(l.blocks, p);
    SizeDone(i, q - 8);
    WrapSame(p);
    SizeDone(i, p - 4);
    GetDone(i, q - 8);
    SizeDone(i, q - 4);
    if m[LastRoot(l)] != q - 8 {
      WrapSame(e);
      GetDone(i, e - 4);
    } else if Spacious(l.base, |m|) {
      SizeDecodes(q, 0);
      DoubleOutside(i, q);
    }
  }

  /** The part "cut off" leaves the last list again, and only its own links stay written. */
  function Unlinked(m2: Memory, l: Layout, q: int, h: int): (r: Memory)
    requires 0 <= q && q + 4 < |m2|
    ensures |r| == |m2|
  {
    m2[q + 4 := LastRoot(l)][q := h]
  }

  lemma RestRemoved(m: Memory, l: Layout, p: int, n: int, m3: Memory)
    requires Listed(m, l, p, n, m3) && m[LastRoot(l)] != p + n - 8
    ensures
      var size, bulk := l.blocks[p].size, if l.blocks[p].bulk then BULKTAG else FREETAG;
      var m4 := Unlinked(Retagged(m, p, size, n, bulk), l, p + n, m[LastRoot(l)]);
      ImageOf(m3, l).Remove(p + n) == Done(ImageOf(m4, l))
  {
    hide IsWord, SizeOf, IsAlloc, BulkBit, Holds, Wrap, Pack, Image.Remove;
    RestSeen(m, l, p, n, m3);
    Around(m, l, p, n);
    LastList(m, l, p, n);
    WordsAround(l.base, |m|, p + n);
    HeapInStorage(m3, l);
    RemoveDone(ImageOf(m3, l), p + n);
    var size, bulk := l.blocks[p].size, if l.blocks[p].bulk then BULKTAG else FREETAG;
    UnlinkedAgain(Retagged(m, p, size, n, bulk), l, p + n, m[LastRoot(l)]);
  }

  /** Linking q in and out again restores its neighbours. */
  lemma UnlinkedAgain(m2: Memory, l: Layout, q: int, h: int)
    requires 0 <= LastRoot(l) < |m2| && m2[LastRoot(l)] == h && 0 <= h && h + 4 < |m2| && m2[h + 4] == LastRoot(l)
    requires LastRoot(l) + 4 < q && q + 4 < |m2| && h % 8 == 0 && q % 8 == 0 && h != q
    ensures Removed(Inserted(m2, LastRoot(l), q), LastRoot(l), h) == Unlinked(m2, l, q, h)
  {
  }

  /** coalesce goes on to the free block "behind" the rest: the one behind p. */
  lemma CutCoalesces(m: Memory, l: Layout, p: int, n: int)
    requires Request(m, l, p, n) && EndsWithin(m, l, p, n)
    ensures
      var q, size, bulk := p + n, l.blocks[p].size, if l.blocks[p].bulk then BULKTAG else FREETAG;
      && 4 <= p && 16 <= size && size + 8 <= n && q + 4 < |m|
      && (m[LastRoot(l)] == q - 8 && Spacious(l.base, |m|) ==> ImageOf(m, l).Cut(p, n) == Wild)
      && (m[LastRoot(l)] != q - 8 ==>
        ImageOf(m, l).Cut(p, n)
        == ImageOf(Unlinked(Retagged(m, p, size, n, bulk), l, q, m[LastRoot(l)]), l)
           .Join(q, WORD_LIMIT + size - n, true, false))
  {
    hide IsWord, SizeOf, IsAlloc, BulkBit, Holds, Wrap, Pack, Image.Cut, Image.TagBefore, Image.TagBehind;
    hide Image.Remove, Image.NextOf, Image.SizeAt, Image.Join, Retagged, Unlinked, Inserted;
    RestListed(m, l, p, n);
    Around(m, l, p, n);
    var q, size, bulk := p + n, l.blocks[p].size, if l.blocks[p].bulk then BULKTAG else FREETAG;
    var m3 := Inserted(Retagged(m, p, size, n, bulk), LastRoot(l), q);
    assert Listed(m, l, p, n, m3);
    SeesNeighbours(m, l, p, n, m3);
    if m[LastRoot(l)] != q - 8 { RestRemoved(m, l, p, n, m3); }
  }

  /** The heap when the rest, of size f - q, is about to be tagged. */
  function Taken(m: Memory, l: Layout, p: int, size: int, n: int, bulk: int): (r: Memory)
    requires 4 <= p && 16 <= size && size + 8 <= n && p + n + 4 < |m| && 0 <= LastRoot(l) < |m|
    requires 0 <= m[p + size + 4] < |m| && 0 <= m[p + size] + 4 < |m|
    ensures |r| == |m|
  {
    Removed(Unlinked(Retagged(m, p, size, n, bulk), l, p + n, m[LastRoot(l)]), m[p + size + 4], m[p + size])
  }

  /** The words of m4 that coalesce reads to take the free block behind p out of its list. */
  lemma BehindSeen(m: Memory, l: Layout, p: int, n: int, bulk: int)
    requires Request(m, l, p, n) && EndsWithin(m, l, p, n) && (bulk == FREETAG || bulk == BULKTAG)
    ensures
      var q, size, e := p + n, l.blocks[p].size, End(l.blocks, p);
      && 4 <= p && 16 <= size && size + 8 <= n && q + 4 < |m|
      && var m4 := Unlinked(Retagged(m, p, size, n, bulk), l, q, m[LastRoot(l)]);
      && |m4| == |m| && SizeOf(m4[q - 4]) == WORD_LIMIT + e - q && SizeOf(m4[e - 4]) == l.blocks[e].size
      && (e + 16 <= q ==> m4[e] == m[e] && m4[e + 4] == m[e + 4])
      && (e + 8 == q ==> WORD_LIMIT - 8 <= m4[e + 4] < WORD_LIMIT)
  {
    hide IsWord, SizeOf, IsAlloc, BulkBit, Holds;
    Around(m, l, p, n);
    ReadNext(m, l, p);
    var size := l.blocks[p].size;
    WrappedSize(size, n);
    SizeDecodes(WORD_LIMIT + size - n, bulk);
  }

  /** With at least 16 more bytes asked for, the links of the block behind are intact. */
  lemma BehindTaken(m: Memory, l: Layout, p: int, n: int, bulk: int)
    requires Request(m, l, p, n) && EndsWithin(m, l, p, n) && (bulk == FREETAG || bulk == BULKTAG)
    requires l.blocks[p].size + 16 <= n
    ensures
      var q, size, e := p + n, l.blocks[p].size, End(l.blocks, p);
      && 4 <= p && 16 <= size && size + 8 <= n && q + 4 < |m| && 0 <= LastRoot(l) < |m|
      && 0 <= m[e + 4] < |m| && 0 <= m[e] + 4 < |m|
      && ImageOf(Unlinked(Retagged(m, p, size, n, bulk), l, q, m[LastRoot(l)]), l)
         .Join(q, WORD_LIMIT + size - n, true, false)
         == ImageOf(Taken(m, l, p, size, n, bulk), l).Settle(q, End(l.blocks, e) - q)
  {
    hide IsWord, SizeOf, IsAlloc, BulkBit, Holds, Wrap, Pack, Image.Remove, Image.Settle, Retagged, Unlinked;
    BehindSeen(m, l, p, n, bulk);
    Around(m, l, p, n);
    ReadNext(m, l, p);
    var q, size, e := p + n, l.blocks[p].size, End(l.blocks, p);
    var i := ImageOf(Unlinked(Retagged(m, p, size, n, bulk), l, q, m[LastRoot(l)]), l);
    SizeDone(i, q - 4);
    WrapSame(e);
    SizeDone(i, e - 4);
    ReadBlock(m, l, e);
    WrapSame(End(l.blocks, e) - q);
    RemoveAccess(m, l, e);
    HeapInStorage(i.cells, l);
    RemoveDone(i, e);
  }

  /** With only 8 more, they are not: the search for its neighbours leaves the storage. */
  lemma BehindLost(m: Memory, l: Layout, p: int, n: int, bulk: int)
    requires Request(m, l, p, n) && EndsWithin(m, l, p, n) && (bulk == FREETAG || bulk == BULKTAG)
    requires l.blocks[p].size + 8 == n
    ensures
      var q, size := p + n, l.blocks[p].size;
      && 4 <= p && 16 <= size && size + 8 <= n && q + 4 < |m|
      && ImageOf(Unlinked(Retagged(m, p, size, n, bulk), l, q, m[LastRoot(l)]), l)
         .Join(q, WORD_LIMIT + size - n, true, false) == Wild
  {
    hide IsWord, SizeOf, IsAlloc, BulkBit, Holds, Wrap, Pack, Retagged, Unlinked;
    BehindSeen(m, l, p, n, bulk);
    Around(m, l, p, n);
    ReadNext(m, l, p);
    var q, size, e := p + n, l.blocks[p].size, End(l.blocks, p);
    var i := ImageOf(Unlinked(Retagged(m, p, size, n, bulk), l, q, m[LastRoot(l)]), l);
    SizeDone(i, q - 4);
    WrapSame(e);
    OutsideHeap(i, i.cells[e + 4]);
    WordsAround(l.base, l.brk, e);
    GetDone(i, e + 4);
  }

  /** At least 16 bytes more, inside the free block: all that is left is to tag and list the rest. */
  lemma CutJoins(m: Memory, l: Layout, p: int, n: int)
    requires Request(m, l, p, n) && EndsWithin(m, l, p, n) && l.blocks[p].size + 16 <= n
    ensures
      var q, size, bulk := p + n, l.blocks[p].size, if l.blocks[p].bulk then BULKTAG else FREETAG;
      && 4 <= p && 16 <= size && size + 8 <= n && q + 4 < |m| && 0 <= LastRoot(l) < |m|
      && 0 <= m[p + size + 4] < |m| && 0 <= m[p + size] + 4 < |m|
      && ImageOf(m, l).Cut(p, n)
         == ImageOf(Taken(m, l, p, size, n, bulk), l).Settle(q, End(l.blocks, End(l.blocks, p)) - q)
  {
    hide IsWord, Holds, Image.Cut, Image.Join, Image.Settle, Retagged, Unlinked, Taken;
    var bulk := if l.blocks[p].bulk then BULKTAG else FREETAG;
    CutCoalesces(m, l, p, n);
    BehindTaken(m, l, p, n, bulk);
    LastList(m, l, p, n);
  }

  lemma FreeIsListed(l: Layout, e: int)
    requires l.AllListed() && IsFree(l.blocks, e)
    ensures e in l.cls
  {
  }

  /** x is a node other than the block behind p: away from both. */
  ghost predicate Away(l: Layout, p: int, x: int)
    requires p in l.blocks && End(l.blocks, p) in l.blocks
  {
    x + 16 <= p || End(l.blocks, End(l.blocks, p)) <= x
  }

  lemma NodeAway(l: Layout, p: int, c: int, k: int)
    requires l.Tiled() && l.Threaded() && p in l.blocks && l.blocks[p].alloc && End(l.blocks, p) in l.blocks
    requires 0 <= c < |l.rings| && 0 <= k < |l.rings[c]| && l.rings[c][k] != End(l.blocks, p)
    ensures Away(l, p, l.rings[c][k])
  {
    var x, e := l.rings[c][k], End(l.blocks, p);
    assert l.RingAt(c) && InExtent(l.blocks, p, l.First(), l.brk);
    if 0 < k < |l.rings[c]| - 1 {
      assert l.ListedAt(x) && InExtent(l.blocks, x, l.First(), l.brk);
      assert Apart(l.blocks, x, p) && Apart(l.blocks, p, x) && Apart(l.blocks, x, e) && Apart(l.blocks, e, x);
    }
  }

  /** The list neighbours of the block behind p are away from both blocks. */
  lemma NeighboursAway(m: Memory, l: Layout, p: int)
    requires Holds(m, l) && p in l.blocks && l.blocks[p].alloc && End(l.blocks, p) in l.cls
    ensures
      var e := End(l.blocks, p);
      && e in l.blocks && 0 <= e && e + 4 < |m| && Away(l, p, m[e + 4]) && Away(l, p, m[e])
      && 0 <= m[e + 4] && m[e + 4] + 4 < |m| && 0 <= m[e] && m[e] + 4 < |m|
  {
    var e := End(l.blocks, p);
    RemoveAccess(m, l, e);
    assert l.ListedAt(e);
    var c := l.cls[e];
    var k := Position(l.rings[c], e);
    assert Linked(m, l.rings[c]) && LinkAt(m, l.rings[c], k) && LinkAt(m, l.rings[c], k - 1);
    NodeAway(l, p, c, k - 1);
    NodeAway(l, p, c, k + 1);
  }

  /** First node of the first list, in the heap where the block behind p has just been unlisted. */
  lemma FirstList(m: Memory, l: Layout, p: int, n: int, bulk: int)
    requires Request(m, l, p, n) && EndsWithin(m, l, p, n) && l.blocks[p].size + 16 <= n
    ensures
      var size, e := l.blocks[p].size, End(l.blocks, p);
      && 4 <= p && 16 <= size && size + 8 <= n && p + n + 4 < |m| && 0 <= LastRoot(l) < |m|
      && 0 <= m[e + 4] < |m| && 0 <= m[e] + 4 < |m|
      && var x := Taken(m, l, p, size, n, bulk)[l.base];
      && 0 <= x && x + 8 <= l.brk && x + 4 < |m| && (x == e || Away(l, p, x))
      && l.base % 8 == 0
  {
    hide IsWord, SizeOf, IsAlloc, BulkBit, Pack, Coalesced, Layout.Classed;
    var e := End(l.blocks, p);
    Around(m, l, p, n);
    LastList(m, l, p, n);
    ReadBlock(m, l, e);
    FreeIsListed(l, e);
    NeighboursAway(m, l, p);
    assert l.RingAt(0) && Linked(m, l.rings[0]) && LinkAt(m, l.rings[0], 0);
    NodePair(l, 0, 1);
    if m[l.base] != e { NodeAway(l, p, 0, 1); }
    RemoveAccess(m, l, e);
    OctetSum(l.First(), 272);
  }

  // What the steps come to if there is room behind.

  /** What lies inside a free block, behind its links, matters to nobody. */
  lemma InteriorHolds(m: Memory, l: Layout, e: int, m': Memory)
    requires Holds(m, l) && IsFree(l.blocks, e) && OnlyWithin(m, m', e + 8, End(l.blocks, e) - 8)
    ensures Holds(m', l) && Keeps(m, m', Live(l.blocks))
  {
    hide Block.Word;
    assert InExtent(l.blocks, e, l.First(), l.brk);
    forall q | q in l.blocks
      ensures TagAt(m', l.blocks, q)
      ensures q != e ==> SamePayload(m, m', q, l.blocks[q])
    {
      assert TagAt(m, l.blocks, q) && InExtent(l.blocks, q, l.First(), l.brk);
      assert Apart(l.blocks, e, q) && Apart(l.blocks, q, e);
    }
    forall c | 0 <= c < |l.rings| ensures Linked(m', l.rings[c]) { InteriorRing(m, l, e, m', c); }
  }

  lemma InteriorRing(m: Memory, l: Layout, e: int, m': Memory, c: int)
    requires Holds(m, l) && IsFree(l.blocks, e) && OnlyWithin(m, m', e + 8, End(l.blocks, e) - 8)
    requires 0 <= c < |l.rings|
    ensures Linked(m', l.rings[c])
  {
    var r := l.rings[c];
    assert Linked(m, r);
    forall k | 0 <= k < |r| - 1 ensures LinkAt(m', r, k) {
      assert LinkAt(m, r, k);
      NodeOutsideOf(l, e, c, k);
      NodeOutsideOf(l, e, c, k + 1);
    }
  }

  lemma NodeOutsideOf(l: Layout, e: int, c: int, k: int)
    requires l.Tiled() && l.Threaded() && e in l.blocks
    requires 0 <= c < |l.rings| && 0 <= k < |l.rings[c]|
    ensures l.rings[c][k] + 8 <= e + 8 || End(l.blocks, e) <= l.rings[c][k]
  {
    var x := l.rings[c][k];
    assert l.RingAt(c) && InExtent(l.blocks, e, l.First(), l.brk);
    if 0 < k < |l.rings[c]| - 1 {
      assert l.ListedAt(x) && InExtent(l.blocks, x, l.First(), l.brk);
      assert Apart(l.blocks, x, e) && Apart(l.blocks, e, x);
    }
  }

  /** Retagging a held block in place. */
  lemma RetagHeld(m: Memory, l: Layout, p: int, b: Block)
    requires Holds(m, l) && p in l.blocks && l.blocks[p].alloc && b.alloc && b.size == l.blocks[p].size
    ensures 4 <= p && p + b.size <= |m| && b.size >= 16
    ensures Holds(TagsSet(m, p, b), l.(blocks := l.blocks[p := b]))
    ensures Keeps(m, TagsSet(m, p, b), Live(l.blocks))
  {
    hide Block.Word;
    var bs := l.blocks[p := b];
    RetagTiling(l.blocks, l.First(), l.brk, p, b, bs);
    forall q | q in l.cls ensures IsFree(bs, q) { assert l.ListedAt(q); }
    RetagHolds(m, l, bs, p);
    StretchKeeps(m, TagsSet(m, p, b), l.blocks, bs, p);
  }

  /** A memory with the tags of b at p and of the free rest of size bytes behind it. */
  function TwoTagged(m: Memory, p: int, b: Block, size: int): (r: Memory)
    requires 4 <= p && 16 <= b.size && 16 <= size && p + b.size + size <= |m|
    ensures |r| == |m|
  {
    var q := p + b.size;
    m[p - 4 := b.Word()][q - 8 := b.Word()][q - 4 := Pack(size, FREETAG)][q + size - 8 := Pack(size, FREETAG)]
  }

  /** No block ends strictly inside another. */
  lemma NoEndInside(l: Layout, r: int, e: int)
    requires l.Tiled() && r in l.blocks && e in l.blocks
    ensures !(e < End(l.blocks, r) < End(l.blocks, e))
  {
    assert Apart(l.blocks, r, e) && Apart(l.blocks, e, r) && InExtent(l.blocks, r, l.First(), l.brk);
  }

  lemma GrownBlocksBehind(l: Layout, p: int, n: int)
    requires l.Tiled() && Coalesced(l.blocks) && p in l.blocks && l.blocks[p].alloc
    requires n > l.blocks[p].size && RoomBehind(l, p, n)
    ensures
      var bs := MergedCut(l, p, n, l.blocks[p].bulk);
      Coalesced(bs) && Live(bs) == Live(l.blocks)[p := Block(n, true, l.blocks[p].bulk)] && IsFree(bs, p + n)
  {
    var bs, e := MergedCut(l, p, n, l.blocks[p].bulk), End(l.blocks, p);
    assert InExtent(l.blocks, p, l.First(), l.brk) && InExtent(l.blocks, e, l.First(), l.brk);
    assert p + n in l.blocks ==> Apart(l.blocks, e, p + n);
    assert !IsFree(l.blocks, End(l.blocks, e));
    forall r | IsFree(bs, r) ensures !IsFree(bs, End(bs, r)) {
      if r == p + n {
        assert End(bs, r) == End(l.blocks, e);
        if End(l.blocks, e) in l.blocks { assert InExtent(l.blocks, End(l.blocks, e), l.First(), l.brk); }
      } else {
        assert End(bs, r) == End(l.blocks, r);
        NoEndInside(l, r, e);
      }
    }
  }

  /** A held block's tags have no part in the list invariants. */
  lemma RetagListed(l: Layout, p: int, b: Block, q: int, k: int)
    requires p in l.blocks && l.blocks[p].alloc && b.alloc && q != p && 0 <= k < |l.rings| && l.RingAt(k)
    requires l.Insert(q, k).AllListed() && l.Insert(q, k).Classed() && l.Threaded()
    ensures
      var l1 := l.(blocks := l.blocks[p := b]);
      l1.RingAt(k) && l1.Insert(q, k).AllListed() && l1.Insert(q, k).Classed()
  {
    hide GetLowerBound;
    var l1 := l.(blocks := l.blocks[p := b]);
    assert l1.RingAt(k);
    assert p in l.cls ==> l.ListedAt(p);
    var l2, l3 := l.Insert(q, k), l1.Insert(q, k);
    forall r | IsFree(l3.blocks, r) ensures r in l3.cls { assert IsFree(l2.blocks, r); }
    forall r | r in l3.cls && r in l3.blocks ensures l3.FitsAt(r) { assert l2.FitsAt(r); }
  }

  /** Held block p, told to grow to n bytes, and the free block behind it, which is out of its list. */
  ghost predicate Growing(l: Layout, m: Memory, l1: Layout, p: int, n: int) {
    && Holds(m, l1) && l.AllListed() && l.Classed() && Coalesced(l.blocks) && Mappable(m, l)
    && p in l.blocks && l.blocks[p].alloc && n > l.blocks[p].size && n % 8 == 0 && RoomBehind(l, p, n)
    && Unlisted(l, l1, {End(l.blocks, p)})
  }

  /** The rest, of the given size, can be listed at q by its size. */
  ghost predicate RestReady(l: Layout, q: int, rest: int) {
    && q !in l.cls && |l.rings| == SIZE_CLASS_NUM
    && var k := GetSizeClass(rest);
    && l.RingAt(k) && l.Insert(q, k).AllListed() && l.Insert(q, k).Classed()
  }

  function MergeCut(m: Memory, p: int, n: int, rest: int): (r: Memory)
    requires 4 <= p && 16 <= n && 16 <= rest && p + n + rest <= |m|
    ensures |r| == |m|
  {
    TagsSet(TagsSet(TagsSet(m, p, Block(n + rest, true, false)), p, Block(n, true, false)), p + n,
            Block(rest, false, false))
  }

  lemma OthersStay(l: Layout, p: int, n: int, bulk: bool)
    requires l.Tiled() && p in l.blocks && l.blocks[p].alloc && n > l.blocks[p].size && RoomBehind(l, p, n)
    ensures
      var bs := MergedCut(l, p, n, bulk);
      && 4 <= p - l.base && p in Live(bs) && Live(bs)[p].size == n && l.blocks[p].size >= 16
      && forall q :: q in Live(l.blocks) && q != p ==> q in Live(bs) && Live(bs)[q] == Live(l.blocks)[q]
  {
    var e := End(l.blocks, p);
    assert InExtent(l.blocks, p, l.First(), l.brk) && InExtent(l.blocks, e, l.First(), l.brk);
    assert p + n in l.blocks ==> Apart(l.blocks, e, p + n);
  }

  /** Merging p with the block behind, and cutting the result to n bytes. */
  lemma MergedAndCut(l: Layout, m: Memory, l1: Layout, p: int, n: int)
    requires Growing(l, m, l1, p, n)
    ensures
      var rest := End(l.blocks, End(l.blocks, p)) - p - n;
      && 4 <= p && 16 <= n && p + n + rest <= |m|
      && var l2 := l1.(blocks := MergedCut(l, p, n, false));
      && Holds(MergeCut(m, p, n, rest), l2) && Keeps(m, MergeCut(m, p, n, rest), Live(l.blocks))
      && RestReady(l2, p + n, rest)
  {
    hide IsWord, GetLowerBound, GetSizeClass, Block.Word, Holds, Keeps, Layout.Threaded, Layout.Tiled;
    hide Layout.AllListed, Layout.Classed, Layout.RingAt, Coalesced;
    var e := End(l.blocks, p);
    ReadBlock(m, l1, p);
    ReadBlock(m, l1, e);
    StretchDone(l, m, l1, p);
    var rest := End(l.blocks, e) - p - n;
    var whole, cut, c := Block(n + rest, true, false), Block(n, true, false), Block(rest, false, false);
    var m1, l3 := TagsSet(m, p, whole), l1.(blocks := (l.blocks - {e})[p := whole]);
    ShrinkDone(m1, l3, p, n);
    var l4 := l3.(blocks := l3.blocks[p := cut][p + n := c]);
    assert l4.blocks == MergedCut(l, p, n, false);
    HoldsTiled(m, l1);
    assert l.Tiled() by { SameTiles(l, l1); }
    OthersStay(l, p, n, false);
    var m2 := MergeCut(m, p, n, rest);
    StretchKeeps(m1, m2, l.blocks, Live(l4.blocks), p);
    KeepsTrans(m, m1, m2, Live(l.blocks), Live(l.blocks));
    HoldsTiled(m2, l4);
    RingCount(l4);
  }

  lemma SameTiles(l: Layout, l1: Layout)
    requires l1.Tiled() && l1.blocks == l.blocks && l1.base == l.base && l1.brk == l.brk
    ensures l.Tiled()
  {
  }

  /** Growing into the block behind, once that is out of its list: a merge, a cut, and the old bulk tag. */
  lemma Regrown(l: Layout, m: Memory, l1: Layout, p: int, n: int)
    requires Growing(l, m, l1, p, n)
    ensures
      var bulk, rest := l.blocks[p].bulk, End(l.blocks, End(l.blocks, p)) - p - n;
      && 4 <= p && 16 <= n && p + n + rest <= |m|
      && var m3, l3 := TwoTagged(m, p, Block(n, true, bulk), rest), l1.(blocks := MergedCut(l, p, n, bulk));
      && Holds(m3, l3) && Keeps(m, m3, Live(l.blocks)) && RestReady(l3, p + n, rest)
  {
    hide IsWord, GetLowerBound, GetSizeClass, Block.Word, Holds, Keeps, Layout.Threaded, Layout.Tiled;
    hide Layout.AllListed, Layout.Classed, Layout.RingAt, Coalesced, MergeCut;
    var bulk := l.blocks[p].bulk;
    MergedAndCut(l, m, l1, p, n);
    HoldsTiled(m, l1);
    SameTiles(l, l1);
    OthersStay(l, p, n, false);
    var rest := End(l.blocks, End(l.blocks, p)) - p - n;
    var b, m2, l2 := Block(n, true, bulk), MergeCut(m, p, n, rest), l1.(blocks := MergedCut(l, p, n, false));
    RetagHeld(m2, l2, p, b);
    var m3 := TagsSet(m2, p, b);
    StretchKeeps(m2, m3, l.blocks, Live(l2.blocks), p);
    KeepsTrans(m, m2, m3, Live(l.blocks), Live(l.blocks));
    assert m3 == TwoTagged(m, p, b, rest) by { MergeCutTags(m, p, b, rest); }
    assert l2.blocks[p := b] == MergedCut(l, p, n, bulk);
    HoldsTiled(m2, l2);
    RetagListed(l2, p, b, p + n, GetSizeClass(rest));
  }

  /** Merging, splitting and retagging come to the same as writing the tags of the two results. */
  lemma MergeCutTags(m: Memory, p: int, b: Block, rest: int)
    requires 4 <= p && 16 <= b.size && 16 <= rest && p + b.size + rest <= |m|
    ensures TagsSet(MergeCut(m, p, b.size, rest), p, b) == TwoTagged(m, p, b, rest)
  {
    hide Block.Word;
    WordOf(rest, false, false);
  }

  /** The words written inside the free block before it is taken out of its list. */
  function Scribbled(m: Memory, l: Layout, p: int, size: int, n: int, bulk: int): (r: Memory)
    requires 4 <= p && 16 <= size && size + 16 <= n && p + n + 4 < |m| && 0 <= LastRoot(l) < |m|
    ensures |r| == |m|
  {
    m[p + n - 8 := Pack(n, bulk + ALLOCTAG)][p + n - 4 := Pack(WORD_LIMIT + size - n, bulk)]
     [p + n + 4 := LastRoot(l)][p + n := m[LastRoot(l)]]
  }

  /** The code's order of writes comes to: scribble, unlist, tag two blocks, and leave one more word behind. */
  lemma WritesMeet(m: Memory, l: Layout, p: int, size: int, n: int, b: Block, rest: int, prev: int, next: int)
    requires 4 <= p && 16 <= size && size + 16 <= n && 16 <= rest && p + n + rest <= |m| && 0 <= LastRoot(l) < |m|
    requires b.alloc && b.size == n
    requires m[p + size + 4] == prev && m[p + size] == next
    requires 0 <= prev < |m| && 0 <= next && next + 4 < |m|
    requires prev + 16 <= p || p + n + rest <= prev
    requires next + 16 <= p || p + n + rest <= next
    ensures
      var bulk := if b.bulk then BULKTAG else FREETAG;
      var q := p + n;
      Taken(m, l, p, size, n, bulk)[q - 4 := Pack(rest, FREETAG)][q + rest - 8 := Pack(rest, FREETAG)]
      == TwoTagged(Removed(Scribbled(m, l, p, size, n, bulk), prev, next), p, b, rest)
         [p + size - 8 := Pack(WORD_LIMIT + size - n, bulk)]
  {
  }

  /** The block's old footer ends up inside its new payload. */
  lemma OldFooter(m: Memory, l0: Layout, l: Layout, p: int, v: int)
    requires Holds(m, l) && p in l0.blocks && l0.blocks[p].alloc && l0.blocks[p].size >= 16
    requires p in l.blocks && l.blocks[p].alloc && l0.blocks[p].size + 8 <= l.blocks[p].size
    requires forall q ::
      q in Live(l0.blocks) && q != p ==> q in Live(l.blocks) && Live(l.blocks)[q] == Live(l0.blocks)[q]
    requires 0 <= End(l0.blocks, p) - 8 < |m|
    ensures
      var m' := m[End(l0.blocks, p) - 8 := v];
      Holds(m', l) && Keeps(m, m', Live(l0.blocks))
  {
    hide Holds;
    var m' := m[End(l0.blocks, p) - 8 := v];
    PayloadHolds(m, l, p, m');
    forall q | q in Live(l0.blocks) ensures SamePayload(m, m', q, l0.blocks[q]) {
      if q != p { assert SamePayload(m, m', q, (Live(l.blocks) - {p})[q]); }
    }
  }

  /** Scribbling in the free block behind p, and taking it out of its list. */
  lemma ScribbledHolds(m: Memory, l: Layout, p: int, n: int, bulk: int)
    requires Request(m, l, p, n) && RoomBehind(l, p, n) && End(l.blocks, p) in l.cls
    ensures
      var size, e := l.blocks[p].size, End(l.blocks, p);
      && 4 <= p && 16 <= size && size + 16 <= n && p + n + 4 < |m| && 0 <= LastRoot(l) < |m|
      && 0 <= m[e + 4] < |m| && 0 <= m[e] + 4 < |m| && l.ListedAt(e)
      && var m2 := Removed(Scribbled(m, l, p, size, n, bulk), m[e + 4], m[e]);
      && Growing(l, m2, l.Remove(e), p, n) && Keeps(m, m2, Live(l.blocks))
  {
    hide IsWord, Holds, Keeps;
    var size, e := l.blocks[p].size, End(l.blocks, p);
    ReadBlock(m, l, p);
    ReadBlock(m, l, e);
    var m1 := Scribbled(m, l, p, size, n, bulk);
    InteriorHolds(m, l, e, m1);
    RemoveHolds(m1, l, e);
    KeepsTrans(m, m1, Removed(m1, m[e + 4], m[e]), Live(l.blocks), Live(l.blocks));
  }

  /** Every word that a growth with room behind touches around p lies in memory. */
  ghost predicate InReach(m: Memory, l: Layout, p: int, n: int) {
    && p in l.blocks && IsFree(l.blocks, End(l.blocks, p))
    && var size, e := l.blocks[p].size, End(l.blocks, p);
    && 4 <= p && 16 <= size && size + 16 <= n && p + n + 16 <= End(l.blocks, e) <= |m| && 0 <= LastRoot(l) < |m|
    && 0 <= m[e + 4] < |m| && 0 <= m[e] + 4 < |m|
  }

  lemma RoomInReach(m: Memory, l: Layout, p: int, n: int)
    requires Request(m, l, p, n) && RoomBehind(l, p, n)
    ensures InReach(m, l, p, n) && EndsWithin(m, l, p, n)
    ensures End(l.blocks, p) in l.cls && l.ListedAt(End(l.blocks, p))
  {
    hide IsWord;
    FreeIsListed(l, End(l.blocks, p));
    NeighboursAway(m, l, p);
    ReadBlock(m, l, p);
    ReadBlock(m, l, End(l.blocks, p));
    LastList(m, l, p, n);
  }

  /** The memory with the rest tagged, and the layout with the rest still to be listed. */
  ghost function RestMemory(m: Memory, l: Layout, p: int, n: int): (r: Memory)
    requires InReach(m, l, p, n)
    ensures |r| == |m|
  {
    var q, bulk := p + n, if l.blocks[p].bulk then BULKTAG else FREETAG;
    var rest := End(l.blocks, End(l.blocks, p)) - q;
    Taken(m, l, p, l.blocks[p].size, n, bulk)[q - 4 := Pack(rest, FREETAG)][q + rest - 8 := Pack(rest, FREETAG)]
  }

  ghost function RestLayout(l: Layout, p: int, n: int): Layout
    requires p in l.blocks && End(l.blocks, p) in l.blocks && End(l.blocks, p) in l.cls && l.ListedAt(End(l.blocks, p))
  {
    l.Remove(End(l.blocks, p)).(blocks := MergedCut(l, p, n, l.blocks[p].bulk))
  }

  /** The heap just before the rest is listed: tags, links and fences are those of the grown layout. */
  lemma RestTagged(m: Memory, l: Layout, p: int, n: int)
    requires Request(m, l, p, n) && RoomBehind(l, p, n)
    requires InReach(m, l, p, n) && End(l.blocks, p) in l.cls && l.ListedAt(End(l.blocks, p))
    ensures Holds(RestMemory(m, l, p, n), RestLayout(l, p, n))
    ensures Keeps(m, RestMemory(m, l, p, n), Live(l.blocks))
    ensures RestReady(RestLayout(l, p, n), p + n, End(l.blocks, End(l.blocks, p)) - p - n)
  {
    hide IsWord, Holds, Keeps, Layout.Threaded, Layout.Tiled, RestReady, Scribbled, Taken;
    var q, size, e, bulk := p + n, l.blocks[p].size, End(l.blocks, p), if l.blocks[p].bulk then BULKTAG else FREETAG;
    var rest, b := End(l.blocks, e) - q, Block(n, true, l.blocks[p].bulk);
    ScribbledHolds(m, l, p, n, bulk);
    NeighboursAway(m, l, p);
    HoldsTiled(m, l);
    var m2, l1 := Removed(Scribbled(m, l, p, size, n, bulk), m[e + 4], m[e]), l.Remove(e);
    Regrown(l, m2, l1, p, n);
    var m3, l3 := TwoTagged(m2, p, b, rest), RestLayout(l, p, n);
    OthersStay(l, p, n, b.bulk);
    var v := Pack(WORD_LIMIT + size - n, bulk);
    OldFooter(m3, l, l3, p, v);
    WritesMeet(m, l, p, size, n, b, rest, m[e + 4], m[e]);
    KeepsTrans(m, m2, m3, Live(l.blocks), Live(l.blocks));
    KeepsTrans(m, m3, m3[e - 8 := v], Live(l.blocks), Live(l.blocks));
  }

  /** Tagging and listing a free block that is in no list yet. */
  lemma SettleDone(m: Memory, m1: Memory, l1: Layout, q: int, rest: int)
    requires |m1| == |m| && Holds(m1, l1) && IsFree(l1.blocks, q) && q !in l1.cls && l1.blocks[q].size == rest
    requires 4 <= q && q + rest <= |m| && rest >= 16 && l1.brk < WORD_LIMIT - 8
    requires m1 == m[q - 4 := Pack(rest, FREETAG)][q + rest - 8 := Pack(rest, FREETAG)]
    ensures
      var k := GetSizeClass(rest);
      && 0 <= l1.Root(k) < |m1| && 0 <= m1[l1.Root(k)] && m1[l1.Root(k)] + 4 < |m1| && q + 4 < |m1| && k < |l1.rings|
      && l1.RingAt(k)
      && ImageOf(m, l1).Settle(q, rest) == Done(ImageOf(Inserted(m1, l1.Root(k), q), l1))
      && Holds(Inserted(m1, l1.Root(k), q), l1.Insert(q, k))
      && Keeps(m1, Inserted(m1, l1.Root(k), q), Live(l1.blocks))
  {
    hide IsWord, Holds, Keeps, GetSizeClass, Wrap, Image.SetTag, Image.Insert;
    var k := GetSizeClass(rest);
    ReadBlock(m1, l1, q);
    HeapInStorage(m, l1);
    WrapSame(q + rest - 8);
    TagDone(ImageOf(m, l1), q, rest, FREETAG, q + rest - 8);
    InsertAccess(m1, l1, q, k);
    HeapInStorage(m1, l1);
    InsertHolds(m1, l1, q, k);
    InsertDone(ImageOf(m1, l1), q, rest);
  }

  lemma KeepsGrown(m: Memory, m1: Memory, m2: Memory, l: Layout, l1: Layout, p: int)
    requires p in l.blocks && l.blocks[p].alloc && p in Live(l1.blocks) && l.blocks[p].size <= l1.blocks[p].size
    requires forall q ::
      q in Live(l.blocks) && q != p ==> q in Live(l1.blocks) && Live(l1.blocks)[q] == Live(l.blocks)[q]
    requires Keeps(m, m1, Live(l.blocks)) && Keeps(m1, m2, Live(l1.blocks))
    ensures Keeps(m, m2, Live(l.blocks))
  {
    StretchKeeps(m1, m2, l.blocks, Live(l1.blocks), p);
    KeepsTrans(m, m1, m2, Live(l.blocks), Live(l.blocks));
  }
}
