/** Growing the heap: the block it gains, and how far that leaves it from order. */
module Extending {
  import opened SizeClasses
  import opened Tags
  import opened Blocks
  import opened Rings
  import opened Layouts
  import opened Heaps
  import opened Coalescing
  import opened Merging

  /** A conversion from size_t to int. */
  function AsInt(n: int): int { if n < 0x8000_0000 then n else n - WORD_LIMIT }

  /** Only the left neighbour of p may be free next to a free block. */
  ghost predicate CoalescedInto(bs: Blocks, p: int) {
    forall q {:trigger End(bs, q)} :: IsFree(bs, q) && End(bs, q) != p ==> !IsFree(bs, End(bs, q))
  }

  /** The heap gains a free block b behind its last one. */
  lemma GrownBlocks(l: Layout, b: Block)
    requires l.Tiled() && Coalesced(l.blocks) && b.size >= 16 && b.size % 8 == 0 && !b.alloc
    ensures
      var bs := l.blocks[l.brk := b];
      && l.brk !in l.blocks && Tiling(bs, l.First(), l.brk + b.size)
      && CoalescedBut(bs, l.brk) && CoalescedInto(bs, l.brk) && Live(bs) == Live(l.blocks)
  {
    var bs := l.blocks[l.brk := b];
    GrowTiling(l.blocks, l.First(), l.brk, b, bs);
    forall q | IsFree(bs, q) && End(bs, q) != l.brk ensures !IsFree(bs, End(bs, q)) {
      if q == l.brk {
        assert End(bs, q) in l.blocks ==> InExtent(l.blocks, End(bs, q), l.First(), l.brk);
      } else {
        assert End(l.blocks, q) == End(bs, q);
      }
    }
  }

  /** The last block q, free and unlisted, grows by n bytes. */
  lemma StretchedBlocks(l: Layout, q: int, n: int, b: Block)
    requires l.Tiled() && Coalesced(l.blocks) && n >= 16 && n % 8 == 0
    requires IsFree(l.blocks, q) && End(l.blocks, q) == l.brk
    requires !b.alloc && b.size == l.blocks[q].size + n
    ensures
      var bs := l.blocks[q := b];
      && Tiling(bs, l.First(), l.brk + n)
      && CoalescedInto(bs, q) && Live(bs) == Live(l.blocks)
  {
    var g := l.blocks[l.brk := Block(n, false, false)];
    GrownBlocks(l, Block(n, false, false));
    assert End(g, q) == l.brk;
    assert InExtent(l.blocks, q, l.First(), l.brk);
    var bs := l.blocks[q := b];
    assert bs == (g - {l.brk})[q := b];
    MergeTiling(g, l.First(), l.brk + n, q, b, bs);
    forall r | IsFree(bs, r) && End(bs, r) != q ensures !IsFree(bs, End(bs, r)) {
      if r == q {
        assert End(bs, r) in l.blocks ==> InExtent(l.blocks, End(bs, r), l.First(), l.brk);
      } else {
        assert End(l.blocks, r) == End(bs, r);
      }
    }
  }

  /** Listing the free block p, the only unlisted one, in a class below its size. */
  lemma ListedLow(l: Layout, bs: Blocks, hi: int, p: int, c: int)
    requires l.Threaded() && l.Classed()
    requires forall q :: IsFree(l.blocks, q) && q != p ==> q in l.cls
    requires forall q :: q in bs && q != p ==> q in l.blocks && bs[q] == l.blocks[q]
    requires IsFree(bs, p) && p !in l.cls && 0 <= c < SIZE_CLASS_NUM
    requires GetLowerBound(c) < bs[p].size && (bs[p].bulk || bs[p].size <= GetLowerBound(c + 1))
    ensures
      var l1 := l.(blocks := bs, brk := hi);
      l1.RingAt(c) && l1.Insert(p, c).AllListed() && l1.Insert(p, c).Classed()
  {
    hide GetLowerBound;
    assert l.RingAt(c);
    var l1 := l.(blocks := bs, brk := hi);
    assert l1.RingAt(c);
    var l2 := l1.Insert(p, c);
    forall q | IsFree(bs, q) ensures q in l2.cls {
      if q != p { assert IsFree(l.blocks, q); }
    }
    forall q | q in l2.cls && q in bs ensures l2.FitsAt(q) {
      if q != p { assert l.FitsAt(q); }
    }
  }

  /** Everything needed to write the tags of the new last block p, and the new epilogue. */
  lemma GrowReady(m: Memory, l: Layout, bs: Blocks, hi: int, p: int)
    requires Holds(m, l) && Tiling(bs, l.First(), hi) && l.brk <= hi <= |m|
    requires p in bs && OnlyNew(bs, l.blocks, p) && p + bs[p].size == hi
    requires forall q :: IsFree(l.blocks, q) && q != p ==> IsFree(bs, q)
    requires p !in l.cls && Live(bs) == Live(l.blocks)
    ensures 0 < l.base && 4 <= p && bs[p].size >= 16 && bs[p].size % 8 == 0
    ensures IsWord(l.base, hi, p - 4) && IsWord(l.base, hi, hi - 8) && IsWord(l.base, hi, hi - 4)
    ensures
      var m' := TagsSet(m, p, bs[p])[hi - 4 := Pack(0, ALLOCTAG)];
      Holds(m', l.(blocks := bs, brk := hi)) && Keeps(m, m', Live(l.blocks))
  {
    hide Block.Word, Pack, IsWord;
    assert InExtent(bs, p, l.First(), hi) && Octets(bs, p);
    WordsAround(l.base, hi, p);
    WordsAround(l.base, hi, hi);
    forall q | q in l.cls ensures IsFree(bs, q) { assert l.ListedAt(q); }
    GrowHolds(m, l, bs, hi, p);
    KeepsSub(m, TagsSet(m, p, bs[p])[hi - 4 := Pack(0, ALLOCTAG)], bs, Live(l.blocks));
  }

  /** The heap after extend_heap has tagged its new block, before it is listed. */
  lemma ExtendReady(m: Memory, l: Layout, asize: int, hi: int)
    requires Holds(m, l) && l.AllListed() && l.Classed() && Coalesced(l.blocks)
    requires 16 <= asize && asize % 8 == 0 && hi == l.brk + asize && hi <= |m|
    requires hi - l.First() <= 0x7fffffff
    ensures
      var p, bs := l.brk, l.blocks[l.brk := Block(asize, false, false)];
      && p !in l.blocks && p !in l.cls && p > 4 && 0 < l.base
      && IsWord(l.base, hi, p - 4) && IsWord(l.base, hi, hi - 8) && IsWord(l.base, hi, hi - 4)
      && bs[p].Word() == Pack(asize, FREETAG)
      && CoalescedBut(bs, p) && Live(bs) == Live(l.blocks)
      && var m' := TagsSet(m, p, bs[p])[hi - 4 := Pack(0, ALLOCTAG)];
      && Holds(m', l.(blocks := bs, brk := hi)) && Keeps(m, m', Live(l.blocks))
      && SizeOf(TagsSet(m, p, bs[p])[p - 4]) == asize
      && var c, l1 := GetSizeClass(asize), l.(blocks := bs, brk := hi);
      && l1.RingAt(c)
      && var l2 := l1.Insert(p, c);
      && l2.Tiled() && l2.AllListed() && l2.Classed() && IsFree(l2.blocks, p)
  {
    hide IsWord, GetSizeClass, GetLowerBound;
    var p, b := l.brk, Block(asize, false, false);
    var bs := l.blocks[p := b];
    GrownBlocks(l, b);
    assert p in l.cls ==> l.ListedAt(p);
    GrowReady(m, l, bs, hi, p);
    WordOf(asize, false, false);
    PackDecodes(asize, false, false, false);
    ClassInterval(asize, GetSizeClass(asize));
    ListedLow(l, bs, hi, p, GetSizeClass(asize));
  }

  /** Coalescing leaves the new block free, without bulk tag, and no smaller. */
  lemma ExtendResult(l: Layout, p: int)
    requires l.Tiled() && l.AllListed() && IsFree(l.blocks, p) && CoalescedBut(l.blocks, p) && !l.blocks[p].bulk
    ensures
      var bs, r := MergeAround(l.blocks, p), JoinedStart(l.blocks, p);
      IsFree(bs, r) && bs[r].size >= l.blocks[p].size && !bs[r].bulk && r >= l.First()
  {
    JoinedParts(l, p);
    MergeAroundCoalesces(l.blocks, l.First(), l.brk, p);
    var bs, r := MergeAround(l.blocks, p), JoinedStart(l.blocks, p);
    assert InExtent(bs, r, l.First(), l.brk);
    if IsFree(l.blocks, End(l.blocks, p)) { assert InExtent(l.blocks, End(l.blocks, p), l.First(), l.brk); }
    if HasFreeLeft(l.blocks, p) { assert InExtent(l.blocks, FreeLeft(l.blocks, p), l.First(), l.brk); }
  }

  /**
   * Where a bulk block of n more bytes starts: at the break, or at the last block q if that is
   * free, not bulk itself, and already out of its list.
   */
  ghost predicate BulkStart(l0: Layout, l: Layout, n: int, p: int, size: int) {
    || (l == l0 && p == l0.brk && size == n)
    || (Unlisted(l0, l, {p}) && IsFree(l0.blocks, p) && End(l0.blocks, p) == l0.brk && size == n + l0.blocks[p].size)
  }

  lemma BulkBlocks(l0: Layout, l: Layout, n: int, p: int, b: Block)
    requires l0.Tiled() && l0.Threaded() && Coalesced(l0.blocks) && n >= 16 && n % 8 == 0
    requires BulkStart(l0, l, n, p, b.size) && !b.alloc
    ensures
      var bs := l0.blocks[p := b];
      && l.blocks == l0.blocks && l.base == l0.base && l.brk == l0.brk && p !in l.cls && b.size >= n
      && Tiling(bs, l0.First(), l0.brk + n) && p + b.size == l0.brk + n
      && CoalescedInto(bs, p) && Live(bs) == Live(l0.blocks)
  {
    if l == l0 && p == l0.brk && b.size == n {
      GrownBlocks(l0, b);
      assert p in l.cls ==> l0.ListedAt(p);
    } else {
      StretchedBlocks(l0, p, n, b);
      assert InExtent(l0.blocks, p, l0.First(), l0.brk);
    }
  }

  /** The heap after extend_heap_bulk has tagged its new block, before it is listed. */
  lemma BulkReady(l0: Layout, m: Memory, l: Layout, asize: int, p: int, b: Block, hi: int)
    requires Holds(m, l) && l0.Tiled() && l0.Threaded() && l0.AllListed() && l0.Classed() && Coalesced(l0.blocks)
    requires 16 <= asize && asize % 8 == 0 && hi == l0.brk + 8 * asize && hi <= |m|
    requires hi - l0.First() <= 0x7fffffff
    requires BulkStart(l0, l, 8 * asize, p, b.size) && !b.alloc && b.bulk
    ensures
      var bs := l0.blocks[p := b];
      && l.blocks == l0.blocks && l.base == l0.base && l.brk == l0.brk
      && p !in l.cls && p > 4 && 0 < l.base && b.size >= 8 * asize && p + b.size == hi
      && b.size % 8 == 0
      && IsWord(l.base, hi, p - 4) && IsWord(l.base, hi, hi - 8) && IsWord(l.base, hi, hi - 4)
      && b.Word() == Pack(b.size, BULKTAG)
      && CoalescedInto(bs, p) && Live(bs) == Live(l0.blocks)
      && var m' := TagsSet(m, p, b)[hi - 4 := Pack(0, ALLOCTAG)];
      && Holds(m', l.(blocks := bs, brk := hi)) && Keeps(m, m', Live(l0.blocks))
      && SizeOf(TagsSet(m, p, b)[p - 4]) == b.size
      && var c, l1 := GetSizeClass(asize), l.(blocks := bs, brk := hi);
      && l1.RingAt(c)
      && var l2 := l1.Insert(p, c);
      && l2.AllListed() && l2.Classed() && IsFree(l2.blocks, p) && GetLowerBound(c) < asize
  {
    hide IsWord, SizeOf, IsAlloc, BulkBit, IsMarked, GetSizeClass, GetLowerBound;
    var bs := l0.blocks[p := b];
    BulkBlocks(l0, l, 8 * asize, p, b);
    GrowReady(m, l, bs, hi, p);
    WordOf(b.size, false, true);
    PackDecodes(b.size, false, true, false);
    ClassInterval(asize, GetSizeClass(asize));
    assert l.Classed() by { BulkClassed(l0, l, 8 * asize, p, b.size); }
    ListedLow(l, bs, hi, p, GetSizeClass(asize));
  }

  lemma BulkClassed(l0: Layout, l: Layout, n: int, p: int, size: int)
    requires l0.Classed() && BulkStart(l0, l, n, p, size)
    ensures l.Classed()
  {
    hide GetLowerBound;
    forall q | q in l.cls && q in l.blocks ensures l.FitsAt(q) { assert l0.FitsAt(q); }
  }

  lemma WordGrows(lo: int, hi: int, hi2: int, a: int)
    requires IsWord(lo, hi, a) && hi <= hi2
    ensures IsWord(lo, hi2, a)
  {
  }
}
