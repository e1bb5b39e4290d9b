/** Client writes into payloads, and shrinking or stretching a block that is held. */
module Payloads {
  import opened SizeClasses
  import opened Tags
  import opened Blocks
  import opened Rings
  import opened Layouts
  import opened Listings
  import opened Heaps
  import opened Coalescing
  import opened Merging
  import opened Freeing
  import opened Fitting
  import opened Placing

  /** Outside p nothing differs. */
  ghost predicate OnlyWithin(m: Memory, m': Memory, lo: int, hi: int) {
    |m| == |m'| && forall a {:trigger m'[a]} :: 0 <= a < |m| && !(lo <= a < hi) ==> m'[a] == m[a]
  }

  /** A held block's payload is the client's: changing it touches nothing of the allocator's. */
  lemma PayloadHolds(m: Memory, l: Layout, p: int, m': Memory)
    requires Holds(m, l) && p in l.blocks && l.blocks[p].alloc
    requires OnlyWithin(m, m', p, End(l.blocks, p) - 8)
    ensures Holds(m', l) && Keeps(m, m', Live(l.blocks) - {p})
  {
    hide Block.Word;
    assert InExtent(l.blocks, p, l.First(), l.brk);
    forall q | q in l.blocks
      ensures TagAt(m', l.blocks, q)
      ensures q != p ==> SamePayload(m, m', q, l.blocks[q])
    {
      assert TagAt(m, l.blocks, q) && InExtent(l.blocks, q, l.First(), l.brk);
      assert Apart(l.blocks, p, q) && Apart(l.blocks, q, p);
    }
    assert Fenced(m', l) by { PayloadFence(m, l, p, m'); }
    forall c | 0 <= c < |l.rings| ensures Linked(m', l.rings[c]) { PayloadRing(m, l, p, m', c); }
    forall q | q in Live(l.blocks) - {p} ensures SamePayload(m, m', q, l.blocks[q]) {}
  }

  lemma PayloadFence(m: Memory, l: Layout, p: int, m': Memory)
    requires l.Tiled() && Fenced(m, l) && p in l.blocks && OnlyWithin(m, m', p, End(l.blocks, p) - 8)
    ensures Fenced(m', l)
  {
    assert InExtent(l.blocks, p, l.First(), l.brk);
  }

  lemma PayloadRing(m: Memory, l: Layout, p: int, m': Memory, c: int)
    requires Holds(m, l) && p in l.blocks && l.blocks[p].alloc
    requires OnlyWithin(m, m', p, End(l.blocks, p) - 8) && 0 <= c < |l.rings|
    ensures Linked(m', l.rings[c])
  {
    var r := l.rings[c];
    assert Linked(m, r);
    forall k | 0 <= k < |r| - 1 ensures LinkAt(m', r, k) {
      assert LinkAt(m, r, k);
      NodeNotHeld(l, p, c, k);
      NodeNotHeld(l, p, c, k + 1);
    }
  }

  lemma NodeNotHeld(l: Layout, p: int, c: int, k: int)
    requires l.Tiled() && l.Threaded() && p in l.blocks && l.blocks[p].alloc
    requires 0 <= c < |l.rings| && 0 <= k < |l.rings[c]|
    ensures l.rings[c][k] + 8 <= p || End(l.blocks, p) <= l.rings[c][k]
  {
    var x := l.rings[c][k];
    assert l.RingAt(c) && InExtent(l.blocks, p, l.First(), l.brk);
    if 0 < k < |l.rings[c]| - 1 {
      assert l.ListedAt(x) && InExtent(l.blocks, x, l.First(), l.brk);
      assert Apart(l.blocks, x, p) && Apart(l.blocks, p, x);
    }
  }

  /** The blocks after mm_realloc has cut a held block p down to n bytes. */
  lemma ShrunkBlocks(l: Layout, p: int, n: int, b: Block, c: Block)
    requires l.Tiled() && Coalesced(l.blocks) && p in l.blocks && l.blocks[p].alloc && SplitRequest(l, p, n)
    requires b.alloc && !c.alloc && b.size == n && b.size + c.size == l.blocks[p].size && p + n !in l.blocks
    ensures
      var bs := l.blocks[p := b][p + n := c];
      CoalescedBut(bs, p + n) && Live(bs) == Live(l.blocks)[p := b]
  {
    var bs, q := l.blocks[p := b][p + n := c], p + n;
    assert InExtent(l.blocks, p, l.First(), l.brk);
    forall r | IsFree(bs, r) && r != q && End(bs, r) != q ensures !IsFree(bs, End(bs, r)) {
      assert End(bs, r) == End(l.blocks, r);
    }
  }

  /** Everything the shrinking branch of mm_realloc needs. */
  lemma ShrinkDone(m: Memory, l: Layout, p: int, n: int)
    requires Holds(m, l) && l.AllListed() && l.Classed() && Coalesced(l.blocks) && l.brk - l.First() <= 0x7fffffff
    requires p in l.blocks && l.blocks[p].alloc && SplitRequest(l, p, n)
    ensures
      var rest, bulk := l.blocks[p].size - n, l.blocks[p].bulk;
      var q, b, c := p + n, Block(n, true, bulk), Block(rest, false, bulk);
      && 4 <= p && q + rest <= l.brk <= |m|
      && var bs, m2 := l.blocks[p := b][q := c], TagsSet(TagsSet(m, p, b), q, c);
      && Holds(m2, l.(blocks := bs)) && Keeps(m, m2, Live(bs))
      && q !in l.cls && IsFree(bs, q) && CoalescedBut(bs, q) && Live(bs) == Live(l.blocks)[p := b]
      && var k, l1 := GetSizeClass(rest), l.(blocks := bs);
      && l1.RingAt(k) && l1.Insert(q, k).AllListed() && l1.Insert(q, k).Classed()
  {
    hide IsWord, GetLowerBound, GetSizeClass, Block.Word;
    var rest, bulk := l.blocks[p].size - n, l.blocks[p].bulk;
    var q, b, c := p + n, Block(n, true, bulk), Block(rest, false, bulk);
    assert p in l.cls ==> l.ListedAt(p);
    SplitAccess(m, l, p, n, bulk);
    SplitHolds(m, l, p, b, c);
    ShrunkBlocks(l, p, n, b, c);
    KeepsSub(m, TagsSet(TagsSet(m, p, b), q, c), l.blocks[p := b], Live(l.blocks[p := b][q := c]));
    ShrinkListed(l, p, n, b, c);
  }

  lemma ShrinkListed(l: Layout, p: int, n: int, b: Block, c: Block)
    requires l.Tiled() && l.Threaded() && l.AllListed() && l.Classed() && l.brk - l.First() <= 0x7fffffff
    requires p in l.blocks && l.blocks[p].alloc && SplitRequest(l, p, n) && p + n !in l.blocks
    requires b.alloc && !c.alloc && c.size == l.blocks[p].size - n
    ensures
      var bs, k := l.blocks[p := b][p + n := c], GetSizeClass(c.size);
      var l1 := l.(blocks := bs);
      && p + n !in l.cls && l1.RingAt(k)
      && l1.Insert(p + n, k).AllListed() && l1.Insert(p + n, k).Classed()
  {
    hide GetLowerBound, GetSizeClass;
    var q, k := p + n, GetSizeClass(c.size);
    var bs := l.blocks[p := b][q := c];
    assert q in l.cls ==> l.ListedAt(q);
    assert p in l.cls ==> l.ListedAt(p);
    assert l.RingAt(k) && InExtent(l.blocks, p, l.First(), l.brk);
    ClassInterval(c.size, k);
    var l1 := l.(blocks := bs);
    assert l1.RingAt(k);
    var l2 := l1.Insert(q, k);
    forall r | IsFree(bs, r) ensures r in l2.cls {
      if r != q { assert IsFree(l.blocks, r); }
    }
    forall r | r in l2.cls && r in bs ensures l2.FitsAt(r) {
      if r != q { assert l.FitsAt(r); }
    }
  }

  lemma StretchWords(m: Memory, l: Layout, p: int)
    requires Holds(m, l) && p in l.blocks && End(l.blocks, p) in l.blocks
    ensures
      var size := l.blocks[p].size + l.blocks[End(l.blocks, p)].size;
      && 0 < l.base && l.First() <= p && p + size <= l.brk <= |m| && size >= 16 && size % 8 == 0
      && l.blocks[p].size < size
      && IsWord(l.base, l.brk, p - 4) && IsWord(l.base, l.brk, p + size - 8)
  {
    hide IsWord, SizeOf, IsAlloc, BulkBit;
    var e := End(l.blocks, p);
    ReadBlock(m, l, p);
    ReadBlock(m, l, e);
    OctetSum(l.blocks[p].size, l.blocks[e].size);
    OctetSum(p, l.blocks[p].size + l.blocks[e].size);
    WordsAround(l.base, l.brk, p + l.blocks[p].size + l.blocks[e].size);
  }

  /** Held block p swallows the free block e behind it, which is already out of its list. */
  lemma StretchDone(l0: Layout, m: Memory, l: Layout, p: int)
    requires Holds(m, l) && l0.AllListed() && l0.Classed() && Coalesced(l0.blocks)
    requires p in l0.blocks && l0.blocks[p].alloc && IsFree(l0.blocks, End(l0.blocks, p))
    requires Unlisted(l0, l, {End(l0.blocks, p)})
    ensures
      var e := End(l0.blocks, p);
      var size := l0.blocks[p].size + l0.blocks[e].size;
      var b := Block(size, true, false);
      && 0 < l.base && 4 <= p && p + size <= l.brk <= |m| && size >= 16 && size % 8 == 0 && e !in Live(l0.blocks)
      && b.Word() == Pack(size, ALLOCTAG)
      && IsWord(l.base, l.brk, p - 4) && IsWord(l.base, l.brk, p + size - 8)
      && var l1 := l.(blocks := (l0.blocks - {e})[p := b]);
      && Holds(TagsSet(m, p, b), l1) && Keeps(m, TagsSet(m, p, b), Live(l0.blocks))
      && l1.AllListed() && l1.Classed() && Coalesced(l1.blocks) && Live(l1.blocks) == Live(l0.blocks)[p := b]
      && !IsFree(l1.blocks, p + size)
  {
    hide IsWord, GetLowerBound, Block.Word;
    var e := End(l0.blocks, p);
    var b := Block(l0.blocks[p].size + l0.blocks[e].size, true, false);
    var bs := (l0.blocks - {e})[p := b];
    StretchWords(m, l, p);
    WordOf(b.size, true, false);
    MergeTiling(l0.blocks, l.First(), l.brk, p, b, bs);
    forall q | q in l.cls ensures IsFree(bs, q) { assert l.ListedAt(q); }
    RetagHolds(m, l, bs, p);
    StretchKeeps(m, TagsSet(m, p, b), l0.blocks, bs, p);
    StretchSettles(l0, l, p, b);
  }

  lemma StretchKeeps(m: Memory, m': Memory, was: Blocks, bs: Blocks, p: int)
    requires Keeps(m, m', bs) && p in was && p in bs && was[p].size <= bs[p].size
    requires forall q :: q in Live(was) && q != p ==> q in bs && bs[q] == was[q]
    ensures Keeps(m, m', Live(was))
  {
    forall q | q in Live(was) ensures SamePayload(m, m', q, was[q]) {
      assert SamePayload(m, m', q, bs[q]);
    }
  }

  lemma StretchSettles(l0: Layout, l: Layout, p: int, b: Block)
    requires l.Tiled() && l.Threaded() && l0.AllListed() && l0.Classed() && Coalesced(l0.blocks)
    requires p in l0.blocks && l0.blocks[p].alloc && IsFree(l0.blocks, End(l0.blocks, p))
    requires Unlisted(l0, l, {End(l0.blocks, p)})
    requires b.alloc && b.size == l0.blocks[p].size + l0.blocks[End(l0.blocks, p)].size
    ensures
      var l1 := l.(blocks := (l0.blocks - {End(l0.blocks, p)})[p := b]);
      && l1.AllListed() && l1.Classed() && Coalesced(l1.blocks) && Live(l1.blocks) == Live(l0.blocks)[p := b]
      && !IsFree(l1.blocks, p + b.size)
  {
    hide GetLowerBound;
    var e := End(l0.blocks, p);
    var bs := (l0.blocks - {e})[p := b];
    var l1 := l.(blocks := bs);
    assert InExtent(l.blocks, e, l.First(), l.brk) && End(l0.blocks, e) == p + b.size;
    assert p in l.cls ==> l.ListedAt(p);
    forall r | IsFree(bs, r) ensures r in l1.cls && !IsFree(bs, End(bs, r)) {
      assert IsFree(l0.blocks, r) && End(bs, r) == End(l0.blocks, r);
    }
    forall r | r in l1.cls && r in bs ensures l1.FitsAt(r) { assert l0.FitsAt(r); }
  }

  ghost predicate CopiedAt(m: Memory, m': Memory, p: int, q: int, i: int) {
    0 <= p + i < |m| && 0 <= q + i < |m'| ==> m'[q + i] == m[p + i]
  }

  /** The first n bytes of the payload at q are those of the payload at p in memory m, word for word. */
  ghost predicate Copied(m: Memory, m': Memory, p: int, q: int, n: int) {
    forall i {:trigger CopiedAt(m, m', p, q, i)} :: 0 <= i < n && i % 4 == 0 ==> CopiedAt(m, m', p, q, i)
  }

  lemma CopiedNone(m: Memory, m': Memory, p: int, q: int)
    ensures Copied(m, m', p, q, 0)
  {
  }

  lemma CopiedOneMore(m: Memory, m1: Memory, m2: Memory, p: int, q: int, i: int)
    requires Copied(m, m1, p, q, i) && i % 4 == 0 && 0 <= i && |m1| == |m|
    requires 0 <= q + i < |m1| && 0 <= p + i < |m1| && m2 == m1[q + i := m[p + i]]
    ensures Copied(m, m2, p, q, i + 4)
  {
    forall j | 0 <= j < i + 4 && j % 4 == 0 ensures CopiedAt(m, m2, p, q, j) {
      if j < i {
        assert CopiedAt(m, m1, p, q, j);
      } else {
        NextMultiple(i, j);
      }
    }
  }

  lemma NextMultiple(i: int, j: int)
    requires i % 4 == 0 && j % 4 == 0 && i <= j < i + 4
    ensures i == j
  {
    var a, b := i / 4, j / 4;
    assert i == 4 * a && j == 4 * b;
  }

  lemma CopiedWords(l: Layout, p: int, i: int)
    requires l.Tiled() && p in l.blocks && 0 < l.base && 0 <= i && i % 4 == 0 && i < l.blocks[p].size - 8
    ensures IsWord(l.base, l.brk, p + i) && i + 4 <= l.blocks[p].size - 8
    ensures l.First() <= p
  {
    assert InExtent(l.blocks, p, l.First(), l.brk) && Octets(l.blocks, p);
    var k, j, s := p / 8, i / 4, l.blocks[p].size / 8;
    assert p + i == 4 * (2 * k + j);
    assert i == 4 * j && l.blocks[p].size == 8 * s;
  }

  lemma HeldApart(l: Layout, p: int, q: int)
    requires l.Tiled() && p in l.blocks && q in l.blocks && p != q
    ensures End(l.blocks, p) <= q || End(l.blocks, q) <= p
    ensures l.First() <= p && End(l.blocks, p) <= l.brk && l.First() <= q && End(l.blocks, q) <= l.brk
  {
    assert Apart(l.blocks, p, q) && Apart(l.blocks, q, p);
    assert InExtent(l.blocks, p, l.First(), l.brk) && InExtent(l.blocks, q, l.First(), l.brk);
  }

  lemma KeepsCopied(m: Memory, m': Memory, bs: Blocks, p: int, n: int)
    requires Keeps(m, m', bs) && p in bs && n <= bs[p].size - 8
    ensures Copied(m, m', p, p, n)
  {
    assert SamePayload(m, m', p, bs[p]);
    forall i | 0 <= i < n && i % 4 == 0 ensures CopiedAt(m, m', p, p, i) {}
  }

  lemma CopiedTrans(m: Memory, m1: Memory, m2: Memory, p: int, q: int, n: int, n2: int)
    requires Copied(m, m1, p, p, n) && Copied(m1, m2, p, q, n2) && n <= n2 && |m1| == |m|
    ensures Copied(m, m2, p, q, n)
  {
    forall i | 0 <= i < n && i % 4 == 0 ensures CopiedAt(m, m2, p, q, i) {
      assert CopiedAt(m, m1, p, p, i) && CopiedAt(m1, m2, p, q, i);
    }
  }

  lemma CopiedThenKept(m: Memory, m1: Memory, m2: Memory, bs: Blocks, p: int, q: int, n: int)
    requires Copied(m, m1, p, q, n) && Keeps(m1, m2, bs) && q in bs && n <= bs[q].size - 8
    ensures Copied(m, m2, p, q, n)
  {
    assert SamePayload(m1, m2, q, bs[q]);
    forall i | 0 <= i < n && i % 4 == 0 ensures CopiedAt(m, m2, p, q, i) {
      assert CopiedAt(m, m1, p, q, i);
    }
  }

  /** Block x, listed in a class the search for asize bytes will reach, is large enough. */
  ghost predicate Suits(l: Layout, x: int, asize: int) {
    x in l.cls && GetSizeClass(asize) <= l.cls[x] && x in l.blocks && l.blocks[x].size >= asize
  }

  lemma SuitsFits(l: Layout, x: int, asize: int)
    requires l.Threaded() && Suits(l, x, asize)
    ensures !NoneFits(l, GetSizeClass(asize), SIZE_CLASS_NUM, asize)
  {
    hide GetSizeClass;
    assert l.ListedAt(x);
    assert NoneFits(l, GetSizeClass(asize), SIZE_CLASS_NUM, asize) ==> TooSmall(l, x, asize);
  }

  /** Merging the block behind p keeps every other suitable block. */
  lemma SuitsStill(l: Layout, l1: Layout, p: int, x: int, asize: int)
    requires l.Threaded() && l1.Threaded() && Suits(l, x, asize)
    requires p in l.blocks && l.blocks[p].alloc && x != End(l.blocks, p)
    requires Unlisted(l.(blocks := l1.blocks), l1, {End(l.blocks, p)})
    requires forall q ::
      q in l.blocks && q != End(l.blocks, p) && q != p ==> q in l1.blocks && l1.blocks[q] == l.blocks[q]
    requires p in l1.blocks && !IsFree(l1.blocks, End(l1.blocks, p))
    ensures Suits(l1, x, asize) && x != End(l1.blocks, p)
  {
    hide GetSizeClass;
    assert l.ListedAt(x) && l1.ListedAt(x);
  }

  /** Data and neighbours when p stays where it is and gets no larger. */
  lemma StayedThen(m: Memory, m1: Memory, held: Blocks, held1: Blocks, p: int)
    requires Keeps(m, m1, held1) && p in held && p in held1 && held1 == held[p := held1[p]]
    requires held1[p].size <= held[p].size
    ensures Copied(m, m1, p, p, (if held[p].size > held1[p].size then held1[p].size else held[p].size) - 8)
    ensures Keeps(m, m1, held - {p}) && held1 == (held - {p})[p := held1[p]]
  {
    KeepsCopied(m, m1, held1, p, held1[p].size - 8);
    KeepsSub(m, m1, held1, held - {p});
  }

  /** Data and neighbours through a merge followed by another change. */
  lemma MergedThen(m: Memory, m1: Memory, m2: Memory, held: Blocks, held1: Blocks, p: int, r: int, size: int,
      rsize: int)
    requires Keeps(m, m1, held) && p in held && size == held[p].size
    requires p in held1 && held1 == held[p := held1[p]] && size <= held1[p].size
    requires Copied(m1, m2, p, r, (if held1[p].size > rsize then rsize else held1[p].size) - 8)
    requires Keeps(m1, m2, held1 - {p})
    ensures Copied(m, m2, p, r, (if size > rsize then rsize else size) - 8)
    ensures Keeps(m, m2, held - {p})
  {
    var n := (if size > rsize then rsize else size) - 8;
    var n2 := (if held1[p].size > rsize then rsize else held1[p].size) - 8;
    KeepsCopied(m, m1, held, p, n);
    CopiedTrans(m, m1, m2, p, r, n, n2);
    KeepsSub(m, m1, held, held - {p});
    KeepsTrans(m, m1, m2, held - {p}, held1 - {p});
  }

  lemma MergedKeeps(m: Memory, m1: Memory, m2: Memory, held: Blocks, held1: Blocks, p: int)
    requires Keeps(m, m1, held) && Keeps(m1, m2, held1)
    requires p in held && p in held1 && held1 == held[p := held1[p]] && held[p].size <= held1[p].size
    ensures Keeps(m, m2, held)
  {
    forall q | q in held ensures SamePayload(m1, m2, q, held[q]) { assert SamePayload(m1, m2, q, held1[q]); }
    KeepsTrans(m, m1, m2, held, held);
  }

  /** Data and neighbours through allocating r, copying p's payload there, and freeing p. */
  lemma MovedThen(m: Memory, m1: Memory, m2: Memory, m3: Memory, held: Blocks, p: int, r: int, b: Block)
    requires p in held && r !in held && held[p].size <= b.size
    requires Keeps(m, m1, held)
    requires Copied(m1, m2, p, r, held[p].size - 8) && Keeps(m1, m2, held[r := b] - {r})
    requires Keeps(m2, m3, held[r := b] - {p})
    ensures Copied(m, m3, p, r, held[p].size - 8)
    ensures Keeps(m, m3, held - {p})
  {
    var n := held[p].size - 8;
    KeepsCopied(m, m1, held, p, n);
    CopiedTrans(m, m1, m2, p, r, n, n);
    CopiedThenKept(m, m2, m3, held[r := b] - {p}, p, r, n);
    KeepsSub(m, m1, held, held - {p});
    KeepsTrans(m, m1, m2, held - {p}, held[r := b] - {r});
    KeepsTrans(m, m2, m3, held - {p}, held[r := b] - {p});
  }

  /** Some listed block other than the one at e suits a request for asize bytes. */
  ghost predicate SuitedBeside(l: Layout, e: int, asize: int) { exists x :: Suits(l, x, asize) && x != e }

  lemma StillMoves(l: Layout, l1: Layout, p: int, asize: int)
    requires l.Threaded() && l1.Threaded() && p in l.blocks && l.blocks[p].alloc
    requires Unlisted(l.(blocks := l1.blocks), l1, {End(l.blocks, p)})
    requires forall q ::
      q in l.blocks && q != End(l.blocks, p) && q != p ==> q in l1.blocks && l1.blocks[q] == l.blocks[q]
    requires p in l1.blocks && !IsFree(l1.blocks, End(l1.blocks, p))
    ensures SuitedBeside(l, End(l.blocks, p), asize) <==> SuitedBeside(l1, End(l1.blocks, p), asize)
  {
    hide Suits;
    if x :| Suits(l, x, asize) && x != End(l.blocks, p) { SuitsStill(l, l1, p, x, asize); }
    if x :| Suits(l1, x, asize) && x != End(l1.blocks, p) { SuitedBefore(l, l1, p, x, asize); }
  }

  lemma HeldBlock(bs: Blocks, p: int)
    requires p in Live(bs)
    ensures p in bs && bs[p].alloc && Live(bs)[p] == bs[p]
  {
  }

  lemma MergedMoves(l: Layout, l1: Layout, p: int, b: Block, asize: int)
    requires l.Threaded() && l1.Threaded() && p in l.blocks && l.blocks[p].alloc && IsFree(l.blocks, End(l.blocks, p))
    requires
      var e := End(l.blocks, p);
      l1 == Unlist(l, {e}).(blocks := (l.blocks - {e})[p := b])
    requires !IsFree(l1.blocks, End(l1.blocks, p))
    ensures SuitedBeside(l, End(l.blocks, p), asize) <==> SuitedBeside(l1, End(l1.blocks, p), asize)
  {
    hide SuitedBeside;
    StillMoves(l, l1, p, asize);
  }

  lemma SuitedBefore(l: Layout, l1: Layout, p: int, x: int, asize: int)
    requires l.Threaded() && l1.Threaded() && Suits(l1, x, asize)
    requires p in l.blocks && l.blocks[p].alloc
    requires Unlisted(l.(blocks := l1.blocks), l1, {End(l.blocks, p)})
    requires forall q ::
      q in l.blocks && q != End(l.blocks, p) && q != p ==> q in l1.blocks && l1.blocks[q] == l.blocks[q]
    ensures Suits(l, x, asize) && x != End(l.blocks, p)
  {
    hide GetSizeClass;
    assert l.ListedAt(x) && l1.ListedAt(x);
  }

  /** Beside an allocated block the search finds one exactly if any suits. */
  lemma FitsBeside(l: Layout, e: int, asize: int)
    requires l.Threaded() && !IsFree(l.blocks, e)
    ensures SuitedBeside(l, e, asize) <==> !NoneFits(l, GetSizeClass(asize), SIZE_CLASS_NUM, asize)
  {
    hide GetSizeClass;
    SuitedFits(l, asize);
    if !NoneFits(l, GetSizeClass(asize), SIZE_CLASS_NUM, asize) {
      var x :| x in l.cls && GetSizeClass(asize) <= l.cls[x] < SIZE_CLASS_NUM && !TooSmall(l, x, asize);
      assert l.ListedAt(x) && Suits(l, x, asize);
    }
  }

  lemma SuitedFits(l: Layout, asize: int)
    requires l.Threaded()
    ensures forall e :: SuitedBeside(l, e, asize) ==> !NoneFits(l, GetSizeClass(asize), SIZE_CLASS_NUM, asize)
  {
    hide Suits, NoneFits;
    if x :| Suits(l, x, asize) { SuitsFits(l, x, asize); }
  }
}
