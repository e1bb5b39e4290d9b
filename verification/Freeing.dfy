/** Releasing a block, before its neighbours are joined to it. */
module Freeing {
  import opened SizeClasses
  import opened Tags
  import opened Blocks
  import opened Rings
  import opened Layouts
  import opened Heaps
  import opened Coalescing
  import opened Merging

  /** p is free, and keeps its bulk tag. */
  function Freed(bs: Blocks, p: int): Blocks
    requires p in bs
  {
    bs[p := Block(bs[p].size, false, bs[p].bulk)]
  }

  lemma FreedBlocks(l: Layout, p: int)
    requires l.Tiled() && p in l.blocks && l.blocks[p].alloc && Coalesced(l.blocks)
    ensures
      var bs := Freed(l.blocks, p);
      && Tiling(bs, l.First(), l.brk) && CoalescedBut(bs, p)
      && Live(bs) == Live(l.blocks) - {p}
      && End(bs, p) == End(l.blocks, p) && (IsFree(bs, End(bs, p)) <==> IsFree(l.blocks, End(l.blocks, p)))
  {
    var bs := Freed(l.blocks, p);
    RetagTiling(l.blocks, l.First(), l.brk, p, bs[p], bs);
    assert InExtent(l.blocks, p, l.First(), l.brk);
    forall q | IsFree(bs, q) && q != p && End(bs, q) != p ensures !IsFree(bs, End(bs, q)) {
      assert End(l.blocks, q) == End(bs, q);
    }
  }

  /** Everything mm_free needs to tag and list the released block. */
  lemma FreeReady(m: Memory, l: Layout, p: int)
    requires Holds(m, l) && Coalesced(l.blocks)
    requires p in l.blocks && l.blocks[p].alloc
    ensures
      var bs, b := Freed(l.blocks, p), l.blocks[p];
      && 0 < l.base && p !in l.cls && IsFree(bs, p)
      && IsWord(l.base, l.brk, p - 4) && IsWord(l.base, l.brk, p + b.size - 8)
      && 4 <= p && p + b.size <= l.brk <= |m| && b.size >= 16 && b.size % 8 == 0
      && SizeOf(m[p - 4]) == b.size && bs[p].Word() == Pack(b.size, BulkBit(m[p - 4]))
      && Holds(TagsSet(m, p, bs[p]), l.(blocks := bs))
      && Keeps(m, TagsSet(m, p, bs[p]), Live(bs))
  {
    hide IsWord;
    var bs := Freed(l.blocks, p);
    FreedBlocks(l, p);
    ReadBlock(m, l, p);
    WordOf(bs[p].size, false, bs[p].bulk);
    assert p in l.cls ==> l.ListedAt(p);
    forall q | q in l.cls ensures IsFree(bs, q) { assert l.ListedAt(q); }
    RetagHolds(m, l, bs, p);
    KeepsSub(m, TagsSet(m, p, bs[p]), bs, Live(bs));
  }

  /** Once listed by its size, the released block fits its class like all others. */
  lemma FreeListed(l: Layout, p: int, c: int)
    requires l.Tiled() && l.Threaded() && l.AllListed() && l.Classed() && l.brk - l.First() <= 0x7fffffff
    requires p in l.blocks && l.blocks[p].alloc && c == GetSizeClass(l.blocks[p].size)
    ensures
      var l1 := l.(blocks := Freed(l.blocks, p));
      l1.RingAt(c) && l1.Insert(p, c).AllListed() && l1.Insert(p, c).Classed()
  {
    hide GetSizeClass, GetLowerBound;
    var bs := Freed(l.blocks, p);
    assert l.RingAt(c);
    var l1 := l.(blocks := bs);
    assert l1.RingAt(c);
    var l2 := l1.Insert(p, c);
    assert InExtent(l.blocks, p, l.First(), l.brk);
    ClassInterval(bs[p].size, c);
    forall q | IsFree(bs, q) ensures q in l2.cls {
      if q != p { assert IsFree(l.blocks, q); }
    }
    forall q | q in l2.cls && q in bs ensures l2.FitsAt(q) {
      if q != p { assert l.FitsAt(q); }
    }
  }

  /** The headers that stay behind inside the joined block, for whoever is walking the heap. */
  ghost predicate StaleHeaders(m: Memory, m': Memory, bs: Blocks, p: int)
    requires p in bs
  {
    && |m| == |m'|
    && (HasFreeLeft(bs, p) && 0 <= p - 4 < |m| ==> m'[p - 4] == bs[p].Word())
    && (IsFree(bs, End(bs, p)) && 0 <= End(bs, p) - 4 < |m| ==> m'[End(bs, p) - 4] == m[End(bs, p) - 4])
  }

  lemma FreeStale(m: Memory, l: Layout, m2: Memory, l2: Layout, p: int, m3: Memory)
    requires Holds(m, l) && p in l.blocks && l.blocks[p].alloc
    requires Holds(m2, l2) && l2.blocks == Freed(l.blocks, p) && |m2| == |m|
    requires LeavesHeaders(m2, m3, l2.blocks, p)
    ensures StaleHeaders(m, m3, l2.blocks, p)
  {
    hide Block.Word;
    var e := End(l.blocks, p);
    assert TagAt(m2, l2.blocks, p) && InExtent(l.blocks, p, l.First(), l.brk);
    if IsFree(l2.blocks, e) {
      assert TagAt(m, l.blocks, e) && TagAt(m2, l2.blocks, e);
    }
  }
}
