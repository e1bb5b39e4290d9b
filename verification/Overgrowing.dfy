/**
 * What mm_realloc does when it is asked to grow a block: its unsigned comparison sends it into
 * the shrinking branch, and the result is right exactly if the block behind is free and leaves
 * room for two blocks of the least size around the new end.
 */
module Overgrowing {
  import opened SizeClasses
  import opened Tags
  import opened Blocks
  import opened Rings
  import opened Layouts
  import opened Heaps
  import opened Coalescing
  import opened Placing
  import opened Machine
  import opened Regrowing

  /** m', read as layout l', serves a growth of p to n bytes: p has the bytes, all other held blocks are as before. */
  ghost predicate GrownTo(l: Layout, p: int, n: int, m': Memory, l': Layout) {
    && Holds(m', l') && l'.base == l.base && l'.brk == l.brk
    && p in l'.blocks && l'.blocks[p].alloc && l'.blocks[p].size >= n
    && forall q :: q in Live(l.blocks) && q != p ==> q in l'.blocks && l'.blocks[q] == l.blocks[q]
  }

  /** No heap serves a growth in place unless the block behind is free and reaches the new end. */
  lemma ServedNeedsRoom(l: Layout, p: int, n: int, m': Memory, l': Layout)
    requires l.Tiled() && Coalesced(l.blocks) && p in l.blocks && l.blocks[p].alloc && n > l.blocks[p].size
    requires GrownTo(l, p, n, m', l')
    ensures
      var e := End(l.blocks, p);
      IsFree(l.blocks, e) && p + n <= End(l.blocks, e)
  {
    hide IsWord, Linked, Block.Word;
    assert InExtent(l'.blocks, p, l'.First(), l'.brk) && InExtent(l.blocks, p, l.First(), l.brk);
    var e := End(l.blocks, p);
    assert e in Live(l.blocks) ==> Apart(l'.blocks, p, e);
    assert IsFree(l.blocks, e);
    var f := End(l.blocks, e);
    assert InExtent(l.blocks, e, l.First(), l.brk);
    assert f != l.brk ==> f in Live(l.blocks) && f in l'.blocks;
    if f != l.brk { assert Apart(l'.blocks, p, f); }
  }

  /** Behind the free block follows a word that says allocated, in every heap that serves the growth. */
  lemma ServedFence(l: Layout, p: int, n: int, m': Memory, l': Layout)
    requires l.Tiled() && Coalesced(l.blocks) && p in l.blocks && IsFree(l.blocks, End(l.blocks, p))
    requires GrownTo(l, p, n, m', l') && l.blocks[p].alloc
    ensures
      var f := End(l.blocks, End(l.blocks, p));
      4 <= f <= |m'| && IsAlloc(m'[f - 4])
  {
    hide IsWord, IsAlloc, SizeOf, BulkBit, Pack;
    var e := End(l.blocks, p);
    var f := End(l.blocks, e);
    assert InExtent(l.blocks, e, l.First(), l.brk) && InExtent(l.blocks, p, l.First(), l.brk);
    if f == l.brk {
      EpilogueDecodes();
    } else {
      assert f in Live(l.blocks);
      ReadBlock(m', l', f);
    }
  }

  /** The new end lies inside the heap's last octet or before, or it is the end of the heap. */
  lemma EndOrWithin(m: Memory, l: Layout, p: int, n: int)
    requires Request(m, l, p, n) && IsFree(l.blocks, End(l.blocks, p)) && p + n <= End(l.blocks, End(l.blocks, p))
    ensures p + n <= l.brk && (p + n + 8 > |m| || EndsWithin(m, l, p, n))
  {
    hide SizeOf;
    var e := End(l.blocks, p);
    ReadBlock(m, l, p);
    ReadBlock(m, l, e);
    OctetSum(p, n);
    OctetSum(l.brk, p + n);
    var gap := l.brk - (p + n);
    assert gap % 8 == 0 && gap >= 0;
  }

  lemma AtLeastTwoOctets(m: Memory, l: Layout, p: int, n: int)
    requires Request(m, l, p, n) && n != l.blocks[p].size + 8
    ensures l.blocks[p].size + 16 <= n
  {
    ReadBlock(m, l, p);
    OctetSum(n, l.blocks[p].size);
    var gap := n - l.blocks[p].size;
    if gap < 16 { OctetGap(gap); }
  }

  /** Some layout explains m' as the heap that the caller asked for. */
  ghost predicate Explained(l: Layout, p: int, n: int, m': Memory) { exists l' :: GrownTo(l, p, n, m', l') }

  /** The code stays within the storage, and leaves what the caller asked for. */
  ghost predicate ServesGrowth(m: Memory, l: Layout, p: int, n: int) {
    ImageOf(m, l).Cut(p, n).Done? && Explained(l, p, n, ImageOf(m, l).Cut(p, n).value.cells)
  }

  lemma GrownIsGrownTo(m: Memory, l: Layout, p: int, n: int, c: Memory, l': Layout)
    requires p in l.blocks && l.blocks[p].alloc && Holds(c, l') && l'.base == l.base && l'.brk == l.brk
    requires Live(l'.blocks) == Live(l.blocks)[p := Block(n, true, l.blocks[p].bulk)]
    ensures GrownTo(l, p, n, c, l')
  {
    hide Holds;
    assert p in Live(l'.blocks);
    forall q | q in Live(l.blocks) && q != p ensures q in l'.blocks && l'.blocks[q] == l.blocks[q] {
      assert q in Live(l'.blocks) && Live(l'.blocks)[q] == Live(l.blocks)[q];
    }
  }

  /**
   * As it is coded, mm_realloc serves a request to grow a block if and only if the block behind
   * is free and the new end lies at least 16 bytes inside it on both sides. In every other case
   * it leaves the storage, or leaves the heap in a state no layout explains.
   */
  lemma GrowthServedExactly(m: Memory, l: Layout, p: int, n: int)
    requires Request(m, l, p, n) && Spacious(l.base, |m|)
    ensures ServesGrowth(m, l, p, n) <==> RoomBehind(l, p, n)
  {
    hide IsWord, Holds, Image.Cut, Coalesced, IsAlloc, Layout.Classed, Layout.AllListed, Layout.Threaded, Layout.Tiled;
    HoldsTiled(m, l);
    if RoomBehind(l, p, n) {
      GrowthServed(m, l, p, n);
      GrownIsGrownTo(m, l, p, n, ImageOf(m, l).Cut(p, n).value.cells, Grown(l, p, n));
    }
    if ServesGrowth(m, l, p, n) {
      var c := ImageOf(m, l).Cut(p, n).value.cells;
      var l' :| GrownTo(l, p, n, c, l');
      ServedNeedsRoom(l, p, n, c, l');
      ServedFence(l, p, n, c, l');
      EndOrWithin(m, l, p, n);
      if p + n + 8 > |m| {
        CutOverruns(m, l, p, n);
      } else if n == l.blocks[p].size + 8 {
        CutStrays(m, l, p, n);
      } else if !RoomBehind(l, p, n) {
        AtLeastTwoOctets(m, l, p, n);
        CutSpoils(m, l, p, n);
      }
    }
  }
}
