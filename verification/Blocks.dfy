/** Blocks by address: how they tile the heap, and how boundary tags describe them in memory. */
module Blocks {
  import opened Tags

  datatype Block = Block(size: int, alloc: bool, bulk: bool) {
    function Word(): int { Pack(size, TagBits(alloc, bulk)) }
  }

  lemma WordOf(size: int, alloc: bool, bulk: bool)
    ensures Block(size, alloc, bulk).Word() == Pack(size, TagBits(alloc, bulk))
  {
  }

  /** A block is keyed by its payload address, one word past its header. */
  type Blocks = map<int, Block>

  function End(bs: Blocks, p: int): int
    requires p in bs
  {
    p + bs[p].size
  }

  predicate IsFree(bs: Blocks, p: int) { p in bs && !bs[p].alloc }

  /** The blocks a client holds. */
  ghost function Live(bs: Blocks): Blocks { map p | p in bs && bs[p].alloc :: bs[p] }

  ghost predicate InExtent(bs: Blocks, p: int, lo: int, hi: int)
    requires p in bs
  {
    lo <= p && bs[p].size >= 16 && p + bs[p].size <= hi
  }

  ghost predicate Octets(bs: Blocks, p: int)
    requires p in bs
  {
    p % 8 == 0 && bs[p].size % 8 == 0
  }

  ghost predicate Apart(bs: Blocks, p: int, q: int)
    requires p in bs && q in bs
  {
    p < q ==> p + bs[p].size <= q
  }

  /** Every block is a well-shaped extent and no two overlap. */
  ghost predicate Disjoint(bs: Blocks, lo: int, hi: int) {
    && (forall p {:trigger InExtent(bs, p, lo, hi)} :: p in bs ==> InExtent(bs, p, lo, hi))
    && (forall p {:trigger Octets(bs, p)} :: p in bs ==> Octets(bs, p))
    && (forall p, q {:trigger Apart(bs, p, q)} :: p in bs && q in bs ==> Apart(bs, p, q))
  }

  /** The blocks fill the interval from `lo` to `hi` without gaps. */
  ghost predicate Tiling(bs: Blocks, lo: int, hi: int) {
    && lo <= hi && lo % 8 == 0 && hi % 8 == 0
    && Disjoint(bs, lo, hi)
    && (lo < hi ==> lo in bs)
    && (forall p {:trigger End(bs, p)} :: p in bs ==> End(bs, p) == hi || End(bs, p) in bs)
  }

  ghost predicate TagAt(m: seq<int>, bs: Blocks, p: int)
    requires p in bs
  {
    && 0 <= p - 4 < |m| && m[p - 4] == bs[p].Word()
    && 0 <= End(bs, p) - 8 < |m| && m[End(bs, p) - 8] == bs[p].Word()
  }

  /** Header and footer of every block carry its size and tags. */
  ghost predicate Tagged(m: seq<int>, bs: Blocks) {
    forall p {:trigger TagAt(m, bs, p)} :: p in bs ==> TagAt(m, bs, p)
  }

  /** No free block touches another. */
  ghost predicate Coalesced(bs: Blocks) {
    forall p {:trigger End(bs, p)} :: IsFree(bs, p) ==> !IsFree(bs, End(bs, p))
  }

  lemma MergeTiling(bs: Blocks, lo: int, hi: int, p: int, b: Block, bs': Blocks)
    requires Tiling(bs, lo, hi)
    requires p in bs && End(bs, p) in bs
    requires b.size == bs[p].size + bs[End(bs, p)].size
    requires bs' == (bs - {End(bs, p)})[p := b]
    ensures Tiling(bs', lo, hi)
  {
    var q := End(bs, p);
    assert InExtent(bs, p, lo, hi) && InExtent(bs, q, lo, hi) && Octets(bs, p) && Octets(bs, q);
    forall r | r in bs' ensures End(bs', r) == hi || End(bs', r) in bs' {
      var o := if r == p then q else r;
      assert End(bs, o) == End(bs', r);
      assert Apart(bs, o, p) && Apart(bs, p, o);
      assert InExtent(bs, o, lo, hi);
    }
    forall r | r in bs' ensures InExtent(bs', r, lo, hi) && Octets(bs', r) {
      assert InExtent(bs, r, lo, hi) && Octets(bs, r);
    }
    forall r, s | r in bs' && s in bs' ensures Apart(bs', r, s) {
      assert Apart(bs, r, s) && Apart(bs, q, s) && Apart(bs, s, q);
      assert InExtent(bs, s, lo, hi);
    }
  }

  lemma SplitTiling(bs: Blocks, lo: int, hi: int, p: int, b: Block, c: Block, bs': Blocks)
    requires Tiling(bs, lo, hi)
    requires p in bs
    requires b.size >= 16 && c.size >= 16 && b.size % 8 == 0 == c.size % 8
    requires b.size + c.size == bs[p].size
    requires bs' == bs[p := b][p + b.size := c]
    ensures Tiling(bs', lo, hi)
  {
    var q := p + b.size;
    assert InExtent(bs, p, lo, hi) && Octets(bs, p);
    assert q in bs ==> Apart(bs, p, q);
    forall r | r in bs' ensures End(bs', r) == hi || End(bs', r) in bs' {
      var o := if r == q then p else r;
      assert r != p ==> End(bs, o) == End(bs', r);
    }
    SplitDisjoint(bs, lo, hi, p, b, c, bs');
  }

  lemma SplitDisjoint(bs: Blocks, lo: int, hi: int, p: int, b: Block, c: Block, bs': Blocks)
    requires Disjoint(bs, lo, hi) && p in bs && b.size >= 16 && c.size >= 16 && b.size + c.size == bs[p].size
    requires b.size % 8 == 0 == c.size % 8 && bs' == bs[p := b][p + b.size := c]
    ensures Disjoint(bs', lo, hi)
  {
    var q := p + b.size;
    assert InExtent(bs, p, lo, hi) && Octets(bs, p);
    forall r | r in bs' ensures InExtent(bs', r, lo, hi) && Octets(bs', r) {
      if r != q { assert InExtent(bs, r, lo, hi) && Octets(bs, r); }
    }
    forall r, s | r in bs' && s in bs' ensures Apart(bs', r, s) { SplitApart(bs, lo, hi, p, b, c, bs', r, s); }
  }

  lemma SplitApart(bs: Blocks, lo: int, hi: int, p: int, b: Block, c: Block, bs': Blocks, r: int, s: int)
    requires Disjoint(bs, lo, hi) && p in bs && b.size >= 16 && c.size >= 16 && b.size + c.size == bs[p].size
    requires bs' == bs[p := b][p + b.size := c] && r in bs' && s in bs'
    ensures Apart(bs', r, s)
  {
    var q := p + b.size;
    var r0, s0 := if r == q then p else r, if s == q then p else s;
    assert Apart(bs, r0, s0) && Apart(bs, s0, r0) && InExtent(bs, r0, lo, hi);
    assert q in bs ==> Apart(bs, p, q);
  }

  lemma GrowTiling(bs: Blocks, lo: int, hi: int, b: Block, bs': Blocks)
    requires Tiling(bs, lo, hi)
    requires b.size >= 16 && b.size % 8 == 0
    requires bs' == bs[hi := b]
    ensures Tiling(bs', lo, hi + b.size)
    ensures hi !in bs
  {
    assert hi in bs ==> InExtent(bs, hi, lo, hi);
    forall r | r in bs' ensures End(bs', r) == hi + b.size || End(bs', r) in bs' {
      assert r != hi ==> End(bs, r) == End(bs', r);
    }
    forall r | r in bs' ensures InExtent(bs', r, lo, hi + b.size) && Octets(bs', r) {
      if r != hi { assert InExtent(bs, r, lo, hi) && Octets(bs, r); }
    }
    forall r, s | r in bs' && s in bs' ensures Apart(bs', r, s) {
      if r != hi {
        assert InExtent(bs, r, lo, hi);
        if s != hi { assert Apart(bs, r, s); }
      } else if s != hi {
        assert InExtent(bs, s, lo, hi);
      }
    }
  }

  lemma RetagTiling(bs: Blocks, lo: int, hi: int, p: int, b: Block, bs': Blocks)
    requires Tiling(bs, lo, hi)
    requires p in bs && b.size == bs[p].size
    requires bs' == bs[p := b]
    ensures Tiling(bs', lo, hi)
  {
    forall r | r in bs' ensures End(bs', r) == hi || End(bs', r) in bs' {
      assert End(bs, r) == End(bs', r);
    }
    forall r | r in bs' ensures InExtent(bs', r, lo, hi) && Octets(bs', r) {
      assert InExtent(bs, r, lo, hi) && Octets(bs, r);
    }
    forall r, s | r in bs' && s in bs' ensures Apart(bs', r, s) {
      assert Apart(bs, r, s);
    }
  }

  /** Writing one block's tags establishes it without disturbing the tags of the others. */
  lemma SetTagKeepsTags(m: seq<int>, bs: Blocks, lo: int, hi: int, p: int, b: Block, bs': Blocks)
    requires bs' == bs[p := b]
    requires 4 <= lo <= p && b.size >= 16 && p + b.size <= hi <= |m|
    requires Disjoint(bs', lo, hi)
    requires forall r :: r in bs && r != p ==> TagAt(m, bs, r)
    ensures Tagged(m[p - 4 := b.Word()][p + b.size - 8 := b.Word()], bs')
  {
    hide Block.Word;
    var m' := m[p - 4 := b.Word()][p + b.size - 8 := b.Word()];
    assert InExtent(bs', p, lo, hi);
    forall r | r in bs' ensures TagAt(m', bs', r) {
      if r != p {
        assert TagAt(m, bs, r);
        assert Apart(bs', p, r) && Apart(bs', r, p) && InExtent(bs', r, lo, hi);
      }
    }
  }

  /** Any block but the first has a left neighbour. */
  lemma LeftNeighbour(bs: Blocks, lo: int, hi: int, p: int, q: int)
    requires Tiling(bs, lo, hi)
    requires p in bs || p == hi
    requires q in bs && q < p
    ensures exists r :: r in bs && q <= r && End(bs, r) == p
    decreases p - q
  {
    var e := End(bs, q);
    assert InExtent(bs, q, lo, hi);
    if e != p {
      if p in bs { assert Apart(bs, q, p) && InExtent(bs, p, lo, hi); }
      LeftNeighbour(bs, lo, hi, p, e);
    }
  }

  /** No two blocks end at the same address. */
  lemma SameEnd(bs: Blocks, lo: int, hi: int, q: int, r: int)
    requires Disjoint(bs, lo, hi) && q in bs && r in bs && End(bs, q) == End(bs, r)
    ensures q == r
  {
    assert Apart(bs, q, r) && Apart(bs, r, q) && InExtent(bs, q, lo, hi) && InExtent(bs, r, lo, hi);
  }
}
