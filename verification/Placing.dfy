/** Placing a request into a free block: whole, split, or split in place within a list. */
module Placing {
  import opened SizeClasses
  import opened Tags
  import opened Blocks
  import opened Rings
  import opened Layouts
  import opened Heaps
  import opened Coalescing
  import opened Merging
  import opened Extending
  import opened Fitting

  /** The block that serves a request of asize bytes from a free block b. */
  ghost predicate Serves(b: Block, asize: int) {
    b.alloc && asize <= b.size < asize + 16
  }

  /** Allocating the low end of p leaves no two free blocks in touch. */
  lemma SplitCoalesced(bs: Blocks, lo: int, hi: int, p: int, b: Block, c: Block)
    requires Tiling(bs, lo, hi) && IsFree(bs, p) && CoalescedInto(bs, p)
    requires b.alloc && !c.alloc && b.size > 0 && c.size > 0 && b.size + c.size == bs[p].size
    requires p + b.size !in bs
    ensures Coalesced(bs[p := b][p + b.size := c])
    ensures Live(bs[p := b][p + b.size := c]) == Live(bs)[p := b]
  {
    var q := p + b.size;
    var bs' := bs[p := b][q := c];
    assert InExtent(bs, p, lo, hi) && !IsFree(bs, End(bs, p));
    forall r | IsFree(bs', r) ensures !IsFree(bs', End(bs', r)) {
      if r == q {
        assert End(bs', r) == End(bs, p);
      } else {
        assert End(bs', r) == End(bs, r);
        assert InExtent(bs, r, lo, hi) && Apart(bs, r, p) && Apart(bs, p, r);
      }
    }
  }

  lemma WholeCoalesced(bs: Blocks, p: int, b: Block)
    requires IsFree(bs, p) && CoalescedInto(bs, p) && b.alloc && b.size == bs[p].size
    ensures Coalesced(bs[p := b]) && Live(bs[p := b]) == Live(bs)[p := b]
  {
    var bs' := bs[p := b];
    forall r | IsFree(bs', r) ensures !IsFree(bs', End(bs', r)) {
      assert End(bs', r) == End(bs, r);
    }
  }

  /** The list the rest of a bulk block stays in still suits it. */
  lemma SwapSettles(l: Layout, p: int, b: Block, c: Block)
    requires l.Tiled() && l.Threaded() && l.AllListed() && l.Classed() && CoalescedInto(l.blocks, p)
    requires p in l.cls && Splits(l, p, b, c) && b.alloc && !c.alloc && c.bulk
    requires GetLowerBound(l.cls[p]) < c.size && p + b.size !in l.blocks
    ensures l.ListedAt(p)
    ensures
      var l2 := l.Swap(p, p + b.size, b, c);
      l2.AllListed() && l2.Classed() && Coalesced(l2.blocks) && Live(l2.blocks) == Live(l.blocks)[p := b]
  {
    hide GetLowerBound;
    assert l.ListedAt(p);
    var q := p + b.size;
    var l2 := l.Swap(p, q, b, c);
    SplitCoalesced(l.blocks, l.First(), l.brk, p, b, c);
    forall r | IsFree(l2.blocks, r) ensures r in l2.cls {
      if r != q { assert IsFree(l.blocks, r); }
    }
    forall r | r in l2.cls && r in l2.blocks ensures l2.FitsAt(r) {
      if r != q { assert l.FitsAt(r); }
    }
  }

  ghost predicate SplitRequest(l: Layout, p: int, asize: int) {
    p in l.blocks && l.blocks[p].size - asize >= 16 && asize >= 16 && asize % 8 == 0
  }

  /** The words and tags place writes when it splits p. */
  lemma SplitAccess(m: Memory, l: Layout, p: int, asize: int, bulk: bool)
    requires Holds(m, l) && SplitRequest(l, p, asize)
    ensures
      var rest := l.blocks[p].size - asize;
      var q, b, c := p + asize, Block(asize, true, bulk), Block(rest, false, bulk);
      && 4 <= p && q + rest <= l.brk <= |m| && 0 < l.base && rest % 8 == 0 && q !in l.blocks
      && b.Word() == Pack(asize, TagBits(true, bulk)) && c.Word() == Pack(rest, TagBits(false, bulk))
      && SizeOf(b.Word()) == asize
      && WordPair(l, p) && WordPair(l, q)
      && IsWord(l.base, l.brk, p - 4) && IsWord(l.base, l.brk, q - 8)
      && IsWord(l.base, l.brk, q - 4) && IsWord(l.base, l.brk, q + rest - 8)
  {
    hide IsWord, SizeOf, IsAlloc, BulkBit, IsMarked;
    var rest := l.blocks[p].size - asize;
    ReadBlock(m, l, p);
    OctetSum(l.blocks[p].size, asize);
    WordOf(asize, true, bulk);
    WordOf(rest, false, bulk);
    PackDecodes(asize, true, bulk, false);
    SplitWords(l, p, asize);
    BlockPair(l, p);
    assert p + asize in l.blocks ==> Apart(l.blocks, p, p + asize);
  }

  /** The two words at x lie before block p's header, or behind its end. */
  ghost predicate Outside(l: Layout, p: int, x: int)
    requires p in l.blocks
  {
    x + 16 <= p || End(l.blocks, p) <= x
  }

  lemma ListNeighbours(m: Memory, l: Layout, p: int)
    requires Holds(m, l) && p in l.cls
    ensures p in l.blocks && 0 <= p && p + 4 < |m|
    ensures Outside(l, p, m[p]) && Outside(l, p, m[p + 4])
  {
    assert l.ListedAt(p) && InExtent(l.blocks, p, l.First(), l.brk);
    var c := l.cls[p];
    var k := Position(l.rings[c], p);
    assert Linked(m, l.rings[c]) && LinkAt(m, l.rings[c], k) && LinkAt(m, l.rings[c], k - 1);
    NodeOutside(l, p, c, k, k - 1);
    NodeOutside(l, p, c, k, k + 1);
  }

  lemma NodeOutside(l: Layout, p: int, c: int, k: int, i: int)
    requires l.Tiled() && l.Threaded() && 0 <= c < |l.rings| && 0 <= i < |l.rings[c]| && 0 < k < |l.rings[c]| - 1
    requires p in l.blocks && p == l.rings[c][k] && i != k
    ensures Outside(l, p, l.rings[c][i])
  {
    var x := l.rings[c][i];
    assert l.RingAt(c) && InExtent(l.blocks, p, l.First(), l.brk);
    if 0 < i < |l.rings[c]| - 1 {
      assert l.ListedAt(x) && InExtent(l.blocks, x, l.First(), l.brk);
      assert Apart(l.blocks, x, p) && Apart(l.blocks, p, x);
    }
  }

  /** place writes the tags of the rest last; the links it writes before are elsewhere. */
  lemma SwapOrder(m: Memory, l: Layout, p: int, asize: int, b: Block, c: Block, prev: int, next: int)
    requires SplitRequest(l, p, asize) && b.size == asize && c.size == l.blocks[p].size - asize
    requires 4 <= p && End(l.blocks, p) <= |m| && Outside(l, p, prev) && Outside(l, p, next)
    requires 0 <= prev && prev + 4 < |m| && 0 <= next && next + 4 < |m|
    ensures
      var q := p + asize;
      TagsSet(Swapped(TagsSet(m, p, b), q, prev, next), q, c) == Swapped(TagsSet(TagsSet(m, p, b), q, c), q, prev, next)
  {
    hide Block.Word;
  }

  /** The in-place branch of place. */
  lemma SwapDone(m: Memory, l: Layout, p: int, asize: int)
    requires Holds(m, l) && l.AllListed() && l.Classed() && CoalescedInto(l.blocks, p)
    requires p in l.cls && SplitRequest(l, p, asize)
    requires l.blocks[p].size - asize > GetLowerBound(l.cls[p])
    ensures
      var rest := l.blocks[p].size - asize;
      var q, b, c := p + asize, Block(asize, true, true), Block(rest, false, true);
      && 4 <= p && q + rest <= l.brk <= |m| && l.ListedAt(p)
      && WordPair(l, m[p]) && WordPair(l, m[p + 4]) && 0 <= m[p + 4] < |m| && 0 <= m[p] + 4 < |m|
      && Outside(l, p, m[p]) && Outside(l, p, m[p + 4])
      && var m2 := TagsSet(TagsSet(m, p, b), q, c);
      && var l2 := l.Swap(p, q, b, c);
      && Holds(Swapped(m2, q, m[p + 4], m[p]), l2)
      && Keeps(m, Swapped(m2, q, m[p + 4], m[p]), Live(l.blocks))
      && l2.AllListed() && l2.Classed() && Coalesced(l2.blocks) && Live(l2.blocks) == Live(l.blocks)[p := b]
  {
    hide IsWord, GetLowerBound, Block.Word;
    var rest := l.blocks[p].size - asize;
    var b, c := Block(asize, true, true), Block(rest, false, true);
    SplitAccess(m, l, p, asize, true);
    SwapHolds(m, l, p, b, c);
    SwapSettles(l, p, b, c);
    RemoveAccess(m, l, p);
    ListNeighbours(m, l, p);
  }

  lemma SplitWords(l: Layout, p: int, asize: int)
    requires l.Tiled() && p in l.blocks && asize % 8 == 0 && 16 <= asize <= l.blocks[p].size - 16
    ensures
      var q := p + asize;
      && WordPair(l, q) && IsWord(l.base, l.brk, q - 8) && IsWord(l.base, l.brk, q - 4)
  {
    hide IsWord;
    var q := p + asize;
    assert InExtent(l.blocks, p, l.First(), l.brk) && Octets(l.blocks, p);
    OctetSum(p, asize);
    WordsAround(l.base, l.brk, q);
  }

  /** The in-place branch of place in the order of its writes. */
  lemma InListDone(m: Memory, l: Layout, p: int, asize: int)
    requires Holds(m, l) && l.AllListed() && l.Classed() && CoalescedInto(l.blocks, p)
    requires p in l.cls && SplitRequest(l, p, asize)
    requires l.blocks[p].size - asize > GetLowerBound(l.cls[p])
    ensures
      var rest := l.blocks[p].size - asize;
      var q, b, c := p + asize, Block(asize, true, true), Block(rest, false, true);
      && 4 <= p && q + rest <= l.brk <= |m| && l.ListedAt(p)
      && WordPair(l, m[p]) && WordPair(l, m[p + 4])
      && Outside(l, p, m[p]) && Outside(l, p, m[p + 4])
      && 0 <= m[p + 4] < |m| && 0 <= m[p] + 4 < |m|
      && var m3 := TagsSet(Swapped(TagsSet(m, p, b), q, m[p + 4], m[p]), q, c);
      && var l2 := l.Swap(p, q, b, c);
      && Holds(m3, l2) && Keeps(m, m3, Live(l.blocks))
      && l2.AllListed() && l2.Classed() && Coalesced(l2.blocks) && Live(l2.blocks) == Live(l.blocks)[p := b]
  {
    hide IsWord, GetLowerBound, Block.Word;
    var rest := l.blocks[p].size - asize;
    SwapDone(m, l, p, asize);
    SwapOrder(m, l, p, asize, Block(asize, true, true), Block(rest, false, true), m[p + 4], m[p]);
  }

  /** The splitting branch of place, once p is out of its list; the rest is about to be listed. */
  lemma SplitDone(l0: Layout, m: Memory, l: Layout, p: int, asize: int)
    requires Holds(m, l) && l0.Tiled() && l0.Threaded() && l0.AllListed() && l0.Classed() && CoalescedInto(l0.blocks, p)
    requires Unlisted(l0, l, {p}) && IsFree(l0.blocks, p) && SplitRequest(l0, p, asize)
      && l.brk - l.First() <= 0x7fffffff
    ensures
      var rest := l.blocks[p].size - asize;
      var q, b, c := p + asize, Block(asize, true, false), Block(rest, false, false);
      && 4 <= p && q + rest <= l.brk <= |m|
      && var bs, m2 := l.blocks[p := b][q := c], TagsSet(TagsSet(m, p, b), q, c);
      && Holds(m2, l.(blocks := bs)) && Keeps(m, m2, Live(l0.blocks))
      && q !in l.cls && Coalesced(bs) && Live(bs) == Live(l0.blocks)[p := b]
      && var k, l1 := GetSizeClass(rest), l.(blocks := bs);
      && l1.RingAt(k) && l1.Insert(q, k).AllListed() && l1.Insert(q, k).Classed()
  {
    hide IsWord, GetLowerBound, GetSizeClass, Block.Word;
    var rest := l.blocks[p].size - asize;
    var q, b, c := p + asize, Block(asize, true, false), Block(rest, false, false);
    SplitAccess(m, l, p, asize, false);
    SplitHolds(m, l, p, b, c);
    SplitCoalesced(l0.blocks, l0.First(), l0.brk, p, b, c);
    KeepsSub(m, TagsSet(TagsSet(m, p, b), q, c), l.blocks[p := b], Live(l0.blocks));
    SplitSettles(l0, l, p, asize, b, c);
  }

  lemma SplitSettles(l0: Layout, l: Layout, p: int, asize: int, b: Block, c: Block)
    requires l0.Tiled() && l0.Threaded() && l.Threaded() && l0.AllListed() && l0.Classed()
    requires Unlisted(l0, l, {p}) && IsFree(l0.blocks, p) && SplitRequest(l0, p, asize)
      && l.brk - l.First() <= 0x7fffffff
    requires b == Block(asize, true, false) && c == Block(l0.blocks[p].size - asize, false, false)
    requires p + asize !in l.blocks
    ensures
      var bs, k := l.blocks[p := b][p + asize := c], GetSizeClass(c.size);
      var l1 := l.(blocks := bs);
      && p + asize !in l.cls
      && l1.RingAt(k) && l1.Insert(p + asize, k).AllListed() && l1.Insert(p + asize, k).Classed()
  {
    hide GetLowerBound, GetSizeClass;
    var q, k := p + asize, GetSizeClass(c.size);
    var bs := l.blocks[p := b][q := c];
    assert q in l.cls ==> l.ListedAt(q);
    assert l.RingAt(k) && InExtent(l0.blocks, p, l.First(), l.brk);
    ClassInterval(c.size, k);
    var l1 := l.(blocks := bs);
    assert l1.RingAt(k);
    var l2 := l1.Insert(q, k);
    forall r | IsFree(bs, r) ensures r in l2.cls {
      if r != q { assert IsFree(l0.blocks, r); }
    }
    forall r | r in l2.cls && r in bs ensures l2.FitsAt(r) {
      if r != q { assert l0.FitsAt(r); }
    }
  }

  /** The branch of place that uses all of p, once p is out of its list. */
  lemma WholeDone(l0: Layout, m: Memory, l: Layout, p: int)
    requires Holds(m, l) && l0.AllListed() && l0.Classed() && CoalescedInto(l0.blocks, p)
    requires Unlisted(l0, l, {p}) && IsFree(l0.blocks, p)
    ensures
      var size := l.blocks[p].size;
      var b := Block(size, true, false);
      && 4 <= p && p + size <= l.brk <= |m| && 0 < l.base && size % 8 == 0 && size >= 16
      && b.Word() == Pack(size, ALLOCTAG)
      && IsWord(l.base, l.brk, p - 4) && IsWord(l.base, l.brk, p + size - 8)
      && var l1 := l.(blocks := l.blocks[p := b]);
      && Holds(TagsSet(m, p, b), l1) && Keeps(m, TagsSet(m, p, b), Live(l0.blocks))
      && l1.AllListed() && l1.Classed() && Coalesced(l1.blocks) && Live(l1.blocks) == Live(l0.blocks)[p := b]
  {
    hide IsWord, GetLowerBound;
    var b := Block(l.blocks[p].size, true, false);
    var bs := l.blocks[p := b];
    ReadBlock(m, l, p);
    WordOf(b.size, true, false);
    RetagTiling(l.blocks, l.First(), l.brk, p, b, bs);
    forall q | q in l.cls ensures IsFree(bs, q) { assert l.ListedAt(q); }
    RetagHolds(m, l, bs, p);
    KeepsSub(m, TagsSet(m, p, b), bs, Live(l0.blocks));
    WholeCoalesced(l0.blocks, p, b);
    var l1 := l.(blocks := bs);
    forall r | IsFree(bs, r) ensures r in l1.cls { assert IsFree(l0.blocks, r); }
    forall r | r in l1.cls && r in bs ensures l1.FitsAt(r) { assert l0.FitsAt(r); }
  }

  /** What FindFit returns may be passed to place. */
  lemma FoundReady(l: Layout, p: int, c: int, asize: int)
    requires l.Threaded() && Coalesced(l.blocks)
    requires FirstFit(l, p, c, GetSizeClass(asize), asize)
    ensures IsFree(l.blocks, p) && p !in Live(l.blocks) && l.blocks[p].size >= asize && CoalescedInto(l.blocks, p)
    ensures p in l.cls && l.cls[p] == c
    ensures !NoneFits(l, GetSizeClass(asize), SIZE_CLASS_NUM, asize)
  {
    hide GetSizeClass;
    assert l.ListedAt(p);
    assert NoneFits(l, GetSizeClass(asize), SIZE_CLASS_NUM, asize) ==> TooSmall(l, p, asize);
  }

  lemma CoalescedReady(bs: Blocks, p: int)
    requires Coalesced(bs)
    ensures CoalescedInto(bs, p)
  {
  }

  /** The payload a request gets. */
  lemma ServedSize(l: Layout, p: int, size: int, asize: int)
    requires l.Tiled() && p in l.blocks && Serves(l.blocks[p], asize)
    requires asize % 8 == 0 && size + 8 <= asize < size + 16
    ensures size + 8 <= l.blocks[p].size <= size + 23
    ensures p in Live(l.blocks)
  {
    assert Octets(l.blocks, p);
  }
}
