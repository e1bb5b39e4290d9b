/** What the blocks of a heap say about its address range. */
module Gaps {
  import opened Blocks

  /** Total of the values at the keys in s. */
  ghost function SumOf<K>(f: map<K, int>, s: set<K>): int
    requires s <= f.Keys
  {
    if s == {} then 0 else
      var x :| x in s;
      f[x] + SumOf(f, s - {x})
  }

  lemma {:induction false} SumSplit<K>(f: map<K, int>, s: set<K>, x: K)
    requires s <= f.Keys && x in s
    ensures SumOf(f, s) == f[x] + SumOf(f, s - {x})
  {
    var y :| y in s && SumOf(f, s) == f[y] + SumOf(f, s - {y});
    if y != x {
      SumSplit(f, s - {y}, x);
      SumSplit(f, s - {x}, y);
      assert s - {y} - {x} == s - {x} - {y};
    }
  }

  lemma {:induction false} SumAgrees<K>(f: map<K, int>, g: map<K, int>, s: set<K>)
    requires s <= f.Keys && s <= g.Keys && forall x :: x in s ==> f[x] == g[x]
    ensures SumOf(f, s) == SumOf(g, s)
  {
    if s != {} {
      var x :| x in s;
      SumSplit(f, s, x);
      SumSplit(g, s, x);
      SumAgrees(f, g, s - {x});
    }
  }

  lemma {:induction false} SumBelow<K>(f: map<K, int>, g: map<K, int>, s: set<K>, t: set<K>)
    requires s <= t && t <= g.Keys && s <= f.Keys
    requires forall x :: x in s ==> f[x] <= g[x]
    requires forall x :: x in t ==> 0 <= g[x]
    ensures SumOf(f, s) <= SumOf(g, t)
  {
    if t != {} {
      var x :| x in t;
      SumSplit(g, t, x);
      if x in s { SumSplit(f, s, x); }
      SumBelow(f, g, s - {x}, t - {x});
      if x !in s { assert s - {x} == s; }
    } else {
      assert s == {};
    }
  }

  lemma SumGains<K>(f: map<K, int>, x: K, v: int)
    requires x !in f
    ensures SumOf(f[x := v], f[x := v].Keys) == SumOf(f, f.Keys) + v
  {
    var g := f[x := v];
    SumSplit(g, g.Keys, x);
    assert g.Keys - {x} == f.Keys;
    SumAgrees(f, g, f.Keys);
  }

  lemma SumLoses<K>(f: map<K, int>, x: K)
    requires x in f
    ensures SumOf(f - {x}, (f - {x}).Keys) == SumOf(f, f.Keys) - f[x]
  {
    var g := f - {x};
    SumSplit(f, f.Keys, x);
    assert f.Keys - {x} == g.Keys;
    SumAgrees(f, g, g.Keys);
  }

  ghost function Sizes(bs: Blocks): map<int, int> { map p | p in bs :: bs[p].size }

  ghost function From(bs: Blocks, a: int): set<int> { set p | p in bs && a <= p }

  /** The blocks from a block boundary on make up the rest of the heap. */
  lemma {:induction false} SizesFrom(bs: Blocks, lo: int, hi: int, a: int)
    requires Tiling(bs, lo, hi) && (a in bs || a == hi)
    ensures SumOf(Sizes(bs), From(bs, a)) == hi - a
    decreases hi - a
  {
    if a == hi {
      forall p | p in bs ensures p < hi { assert InExtent(bs, p, lo, hi); }
      assert From(bs, a) == {};
    } else {
      var e := End(bs, a);
      assert InExtent(bs, a, lo, hi);
      SizesFrom(bs, lo, hi, e);
      SumSplit(Sizes(bs), From(bs, a), a);
      forall p | p in bs && a < p ensures e <= p { assert Apart(bs, a, p); }
      assert From(bs, a) - {a} == From(bs, e);
    }
  }

  /** Block sizes add up to the size of the heap between prologue and break. */
  lemma SizesFillHeap(bs: Blocks, lo: int, hi: int)
    requires Tiling(bs, lo, hi)
    ensures SumOf(Sizes(bs), bs.Keys) == hi - lo
  {
    forall p | p in bs ensures lo <= p { assert InExtent(bs, p, lo, hi); }
    assert From(bs, lo) == bs.Keys;
    SizesFrom(bs, lo, hi, lo);
  }

  /** Requests served by held blocks never add up to more than the heap. */
  lemma RequestsFit(bs: Blocks, lo: int, hi: int, req: map<int, int>)
    requires Tiling(bs, lo, hi) && req.Keys == Live(bs).Keys
    requires forall p :: p in req ==> req[p] <= bs[p].size
    ensures SumOf(req, req.Keys) <= hi - lo
  {
    forall p | p in bs ensures 0 <= Sizes(bs)[p] { assert InExtent(bs, p, lo, hi); }
    forall p | p in req.Keys ensures p in bs.Keys && req[p] <= Sizes(bs)[p] { assert p in Live(bs).Keys; }
    SumBelow(req, Sizes(bs), req.Keys, bs.Keys);
    SizesFillHeap(bs, lo, hi);
  }

  /** a lies in the extent of block p. */
  predicate Within(bs: Blocks, p: int, a: int) { p in bs && p <= a < p + bs[p].size }

  /** Every address of the heap lies in exactly one block. */
  lemma {:induction false} EveryAddressOwned(bs: Blocks, lo: int, hi: int, q: int, a: int)
    requires Tiling(bs, lo, hi) && q in bs && q <= a < hi
    ensures exists p :: Within(bs, p, a) && forall r :: Within(bs, r, a) ==> r == p
    decreases hi - q
  {
    var e := End(bs, q);
    assert InExtent(bs, q, lo, hi);
    if a < e {
      assert Within(bs, q, a);
      forall r | Within(bs, r, a) ensures r == q { assert Apart(bs, q, r) && Apart(bs, r, q); }
    } else {
      EveryAddressOwned(bs, lo, hi, e, a);
    }
  }

  /** A free block is a maximal gap: a held block or the heap's end on either side. */
  lemma FreeIsMaximalGap(bs: Blocks, lo: int, hi: int, p: int)
    requires Tiling(bs, lo, hi) && Coalesced(bs) && IsFree(bs, p)
    ensures End(bs, p) == hi || End(bs, p) in Live(bs)
    ensures p == lo || exists q :: q in Live(bs) && End(bs, q) == p
    ensures forall q :: q in Live(bs) ==> End(bs, q) <= p || End(bs, p) <= q
  {
    assert InExtent(bs, p, lo, hi) && InExtent(bs, lo, lo, hi);
    if p != lo {
      LeftNeighbour(bs, lo, hi, p, lo);
      var q :| q in bs && End(bs, q) == p;
      assert q in Live(bs);
    }
    forall q | q in Live(bs) ensures End(bs, q) <= p || End(bs, p) <= q {
      assert Apart(bs, p, q) && Apart(bs, q, p);
    }
  }

  /** The same blocks are held, at the same places and sizes. */
  ghost predicate SameHeld(bs: Blocks, bs': Blocks) {
    && Live(bs).Keys == Live(bs').Keys
    && forall p :: p in Live(bs) ==> bs'[p].size == bs[p].size
  }

  /** The same extents, with the same allocation bits. */
  ghost predicate SamePartition(bs: Blocks, bs': Blocks) {
    && bs.Keys == bs'.Keys
    && forall p :: p in bs ==> bs'[p].size == bs[p].size && bs'[p].alloc == bs[p].alloc
  }

  /** A boundary of one heap is a boundary of the other, with equal blocks behind it. */
  lemma StepsAgree(bs: Blocks, bs': Blocks, lo: int, hi: int, p: int)
    requires Tiling(bs, lo, hi) && Tiling(bs', lo, hi) && Coalesced(bs) && Coalesced(bs') && SameHeld(bs, bs')
    requires p in bs && p in bs'
    ensures bs'[p].size == bs[p].size && bs'[p].alloc == bs[p].alloc
  {
    assert p in Live(bs) <==> p in Live(bs').Keys;
    if !bs[p].alloc {
      FreeNoLonger(bs, bs', lo, hi, p);
      FreeNoLonger(bs', bs, lo, hi, p);
    }
  }

  lemma FreeNoLonger(bs: Blocks, bs': Blocks, lo: int, hi: int, p: int)
    requires Tiling(bs, lo, hi) && Tiling(bs', lo, hi) && Coalesced(bs) && SameHeld(bs, bs')
    requires IsFree(bs, p) && IsFree(bs', p)
    ensures bs'[p].size <= bs[p].size
  {
    var e := End(bs, p);
    assert InExtent(bs, p, lo, hi) && InExtent(bs', p, lo, hi);
    if e != hi {
      assert e in Live(bs).Keys;
      assert Apart(bs', p, e);
    }
  }

  lemma {:induction false} WalksAgree(bs: Blocks, bs': Blocks, lo: int, hi: int, a: int, p: int)
    requires Tiling(bs, lo, hi) && Tiling(bs', lo, hi) && Coalesced(bs) && Coalesced(bs') && SameHeld(bs, bs')
    requires a in bs && a in bs' && p in bs && a <= p
    ensures p in bs' && bs'[p].size == bs[p].size && bs'[p].alloc == bs[p].alloc
    decreases p - a
  {
    StepsAgree(bs, bs', lo, hi, a);
    assert InExtent(bs, a, lo, hi) && InExtent(bs, p, lo, hi);
    if a < p {
      assert Apart(bs, a, p);
      assert End(bs', a) == End(bs, a);
      WalksAgree(bs, bs', lo, hi, End(bs, a), p);
    }
  }

  /**
   * The partition of the heap is determined by the held extents and the break alone: neither
   * the order of frees nor the route of splits and merges leaves a trace.
   */
  lemma PartitionDetermined(bs: Blocks, bs': Blocks, lo: int, hi: int)
    requires Tiling(bs, lo, hi) && Tiling(bs', lo, hi) && Coalesced(bs) && Coalesced(bs') && SameHeld(bs, bs')
    ensures SamePartition(bs, bs')
  {
    forall p | p in bs ensures p in bs' && bs'[p].size == bs[p].size && bs'[p].alloc == bs[p].alloc {
      assert InExtent(bs, p, lo, hi);
      WalksAgree(bs, bs', lo, hi, lo, p);
    }
    forall p | p in bs' ensures p in bs {
      assert InExtent(bs', p, lo, hi);
      WalksAgree(bs', bs, lo, hi, lo, p);
    }
  }
}
