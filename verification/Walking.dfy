/** Walking the heap by header sizes, as mm_exit does while blocks merge under its feet. */
module Walking {
  import opened Tags
  import opened Blocks
  import opened Layouts
  import opened Heaps
  import opened Coalescing
  import opened Merging
  import opened Freeing

  ghost predicate AtBoundary(l: Layout, p: int) { p in l.blocks || p == l.brk }

  /** p lies inside free block r, and a header left there leads from p to r's end. */
  ghost predicate AtStale(m: Memory, l: Layout, p: int, r: int) {
    && IsFree(l.blocks, r) && r < p < End(l.blocks, r)
    && IsWord(l.base, l.brk, p - 4) && 4 <= p && p - 4 < |m|
    && !IsAlloc(m[p - 4]) && SizeOf(m[p - 4]) == End(l.blocks, r) - p
  }

  /** A place the walk may stand at. */
  ghost predicate OnWalk(m: Memory, l: Layout, p: int) {
    AtBoundary(l, p) || exists r :: AtStale(m, l, p, r)
  }

  ghost predicate NoneBelow(bs: Blocks, p: int) { forall q :: q in bs ==> p <= q }

  /** What the header at a place of the walk says. */
  lemma WalkReads(m: Memory, l: Layout, p: int)
    requires Holds(m, l) && OnWalk(m, l, p)
    ensures 0 < l.base && l.brk <= |m| && l.base + 264 < p <= l.brk && IsWord(l.base, l.brk, p - 4)
    ensures SizeOf(m[p - 4]) == 0 <==> p == l.brk
    ensures p < l.brk ==> SizeOf(m[p - 4]) >= 0
    ensures IsAlloc(m[p - 4]) && p < l.brk ==> p in Live(l.blocks)
  {
    hide SizeOf, IsAlloc, IsWord;
    if p in l.blocks {
      ReadBlock(m, l, p);
    } else if p == l.brk {
      EpilogueDecodes();
      WordsAround(l.base, l.brk, l.brk);
    } else {
      var r :| AtStale(m, l, p, r);
      ReadBlock(m, l, r);
    }
  }

  /** Passing something that is not allocated. */
  lemma WalkOn(m: Memory, l: Layout, p: int)
    requires Holds(m, l) && OnWalk(m, l, p) && p < l.brk
    requires 0 <= p - 4 < |m| && !IsAlloc(m[p - 4]) && NoneBelow(Live(l.blocks), p)
    ensures
      var n := p + SizeOf(m[p - 4]);
      p < n && OnWalk(m, l, n) && NoneBelow(Live(l.blocks), n)
  {
    hide SizeOf, IsAlloc, IsWord;
    var n := p + SizeOf(m[p - 4]);
    var r: int;
    if p in l.blocks {
      ReadBlock(m, l, p);
      r := p;
    } else {
      r :| AtStale(m, l, p, r);
    }
    assert End(l.blocks, r) == n && IsFree(l.blocks, r);
    assert InExtent(l.blocks, r, l.First(), l.brk);
    forall q | q in Live(l.blocks) ensures n <= q { assert Apart(l.blocks, r, q); }
  }

  /** Freeing the block the walk stands at, and moving on by the header that is left there. */
  lemma WalkFreed(m: Memory, l: Layout, m': Memory, l': Layout, p: int)
    requires Holds(m, l) && Coalesced(l.blocks) && p in l.blocks && l.blocks[p].alloc && NoneBelow(Live(l.blocks), p)
    requires Holds(m', l') && l'.base == l.base && l'.brk == l.brk
    requires
      var bs := Freed(l.blocks, p);
      l'.blocks == MergeAround(bs, p) && StaleHeaders(m, m', bs, p)
    ensures 0 <= p - 4 < |m'|
    ensures
      var n := p + SizeOf(m'[p - 4]);
      p < n && OnWalk(m', l', n) && NoneBelow(Live(l'.blocks), n)
  {
    hide SizeOf, IsAlloc, IsWord, Block.Word;
    var bs, e := Freed(l.blocks, p), End(l.blocks, p);
    FreedBlocks(l, p);
    MergeAroundCoalesces(bs, l.First(), l.brk, p);
    var r := if HasFreeLeft(bs, p) then FreeLeft(bs, p) else p;
    ReadBlock(m, l, p);
    ReadBlock(m', l', r);
    forall q | q in Live(l'.blocks) ensures End(l'.blocks, r) <= q {
      assert q in Live(l.blocks) && Apart(l'.blocks, r, q);
      assert HasFreeLeft(bs, p) ==> InExtent(bs, r, l.First(), l.brk);
    }
    if HasFreeLeft(bs, p) {
      FreedWord(bs[p]);
      assert InExtent(bs, r, l.First(), l.brk);
      if IsFree(bs, e) {
        ReadBlock(m, l, e);
        assert AtStale(m', l', e, r);
      }
    }
  }

  lemma FreedWord(b: Block)
    requires b.size % 8 == 0
    ensures SizeOf(b.Word()) == b.size
  {
    PackDecodes(b.size, b.alloc, b.bulk, false);
  }

  /** With nothing held, the heap is empty or one free block. */
  lemma NothingHeld(bs: Blocks, lo: int, hi: int)
    requires Tiling(bs, lo, hi) && Coalesced(bs) && Live(bs) == map[]
    ensures lo == hi ==> bs == map[]
    ensures lo < hi ==> bs.Keys == {lo} && !bs[lo].alloc && End(bs, lo) == hi
  {
    forall p | p in bs.Keys ensures p == lo && lo < hi {
      assert p !in Live(bs);
      assert InExtent(bs, p, lo, hi);
      if p != lo {
        assert InExtent(bs, lo, lo, hi);
        LeftNeighbour(bs, lo, hi, p, lo);
        var q :| q in bs && End(bs, q) == p && q !in Live(bs);
      }
    }
    if lo < hi {
      assert bs.Keys == {lo};
      assert lo !in Live(bs);
      assert End(bs, lo) == hi || End(bs, lo) in bs;
      assert InExtent(bs, lo, lo, hi);
    } else {
      assert bs.Keys == {};
    }
  }

  /** The walk starts at the first block, which the prologue's header leads to. */
  lemma PrologueReads(m: Memory, l: Layout)
    requires Holds(m, l)
    ensures 0 < l.base && l.First() <= l.brk <= |m| && IsWord(l.base, l.brk, l.base + 260)
    ensures l.base + 264 + SizeOf(m[l.base + 260]) == l.First()
    ensures OnWalk(m, l, l.First()) && NoneBelow(Live(l.blocks), l.First())
    ensures IsWord(l.base, l.brk, l.First() - 4)
  {
    hide SizeOf, IsWord;
    FirstFooter(m, l);
    forall p | p in Live(l.blocks) ensures l.First() <= p { assert InExtent(l.blocks, p, l.First(), l.brk); }
    WordsAround(l.base, l.brk, l.First());
  }

  /** The heap is empty, or one free block. */
  ghost predicate AllFree(l: Layout) {
    || l.blocks == map[]
    || (l.blocks.Keys == {l.First()} && !l.blocks[l.First()].alloc && End(l.blocks, l.First()) == l.brk)
  }

  lemma WalkDone(l: Layout)
    requires l.Tiled() && Coalesced(l.blocks) && NoneBelow(Live(l.blocks), l.brk)
    ensures Live(l.blocks) == map[] && AllFree(l)
  {
    forall p | p in l.blocks ensures p < l.brk {
      assert InExtent(l.blocks, p, l.First(), l.brk);
    }
    assert Live(l.blocks).Keys == {};
    NothingHeld(l.blocks, l.First(), l.brk);
  }

  /** The addresses reached from p by adding header sizes, up to the first zero size or the end of memory. */
  ghost function HeaderWalk(m: Memory, p: int): seq<int>
    decreases |m| + 4 - p
  {
    if p < 4 || p - 4 >= |m| || SizeOf(m[p - 4]) <= 0 then [p] else [p] + HeaderWalk(m, p + SizeOf(m[p - 4]))
  }

  /** Header sizes lead from any block through all blocks behind it, in order, to the break. */
  lemma {:induction false} HeadersTileFrom(m: Memory, l: Layout, p: int)
    requires Holds(m, l) && AtBoundary(l, p)
    ensures
      var w := HeaderWalk(m, p);
      && w[|w| - 1] == l.brk
      && (forall q :: q in w <==> q == l.brk || (q in l.blocks && p <= q))
      && (forall i {:trigger w[i]} :: 0 <= i < |w| - 1 ==> w[i] in l.blocks && w[i + 1] == End(l.blocks, w[i]))
    decreases l.brk - p
  {
    hide SizeOf, IsAlloc, IsWord, BulkBit;
    if p in l.blocks {
      ReadBlock(m, l, p);
      var e := End(l.blocks, p);
      HeadersTileFrom(m, l, e);
      var w, t := HeaderWalk(m, p), HeaderWalk(m, e);
      assert w == [p] + t && t[0] == e;
      forall q | q in l.blocks ensures q == p || q < p || e <= q { assert Apart(l.blocks, p, q); }
      forall q ensures q in w <==> q == l.brk || (q in l.blocks && p <= q) {
        assert q in w <==> q == p || q in t;
      }
      forall i | 0 <= i < |w| - 1 ensures w[i] in l.blocks && w[i + 1] == End(l.blocks, w[i]) {
        if i > 0 { assert w[i] == t[i - 1]; }
      }
    } else {
      EpilogueDecodes();
      WordsAround(l.base, l.brk, l.brk);
      forall q | q in l.blocks ensures q < p { assert InExtent(l.blocks, q, l.First(), l.brk); }
    }
  }

  /** So the walk from the first block visits every block of the heap exactly up to the epilogue. */
  lemma HeadersTileHeap(m: Memory, l: Layout)
    requires Holds(m, l)
    ensures
      var w := HeaderWalk(m, l.First());
      w[|w| - 1] == l.brk && forall q :: q in w <==> q == l.brk || q in l.blocks
  {
    assert AtBoundary(l, l.First());
    HeadersTileFrom(m, l, l.First());
    forall q | q in l.blocks ensures l.First() <= q { assert InExtent(l.blocks, q, l.First(), l.brk); }
  }
}
