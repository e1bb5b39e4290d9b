/** What mm_check objects to, and the marks it leaves in headers between its two passes. */
module Checking {
  import opened SizeClasses
  import opened Tags
  import opened Blocks
  import opened Rings
  import opened Layouts
  import opened Heaps
  import opened Coalescing
  import opened Merging
  import opened Fitting

  const NO_ERROR := 0
  const ERROR_ALLOC_IN_FREE_LIST := 1
  const ERROR_WRONG_SIZE_CLASS := 2
  const ERROR_COALESCE_FAILED := 3
  const ERROR_ISOLATED_FREE_BLOCK := 4

  /** m is m0 with the allocated bit set in the headers of the listed blocks xs. */
  ghost predicate Tampered(m0: Memory, m: Memory, l: Layout, xs: set<int>) {
    && |m| == |m0|
    && (forall p :: p in xs ==> p in l.cls)
    && (forall a {:trigger WordTampered(m0, m, xs, a)} :: WordTampered(m0, m, xs, a))
  }

  ghost predicate WordTampered(m0: Memory, m: Memory, xs: set<int>, a: int) {
    0 <= a < |m0| && |m| == |m0| ==> m[a] == m0[a] + if a + 4 in xs then ALLOCTAG else 0
  }

  lemma Untampered(m0: Memory, m: Memory, l: Layout)
    ensures Tampered(m0, m, l, {}) <==> m == m0
  {
    if Tampered(m0, m, l, {}) {
      forall a | 0 <= a < |m0| ensures m[a] == m0[a] { assert WordTampered(m0, m, {}, a); }
    }
  }

  /** What the first pass objects to in listed block p. */
  ghost function ListFault(l: Layout, xs: set<int>, p: int): int {
    if p in xs then ERROR_ALLOC_IN_FREE_LIST
    else if p in l.cls && p in l.blocks && !l.FitsAt(p) then ERROR_WRONG_SIZE_CLASS
    else NO_ERROR
  }

  ghost predicate ListsFine(l: Layout, xs: set<int>) {
    forall p {:trigger ListFault(l, xs, p)} :: p in l.cls ==> ListFault(l, xs, p) == NO_ERROR
  }

  /** The lists, in order, have their first fault at node k of list c. */
  ghost predicate FirstListFault(l: Layout, xs: set<int>, c: int, k: int, error: int) {
    && 0 <= c < |l.rings| && 0 < k < |l.rings[c]| - 1
    && ListFault(l, xs, l.rings[c][k]) == error != NO_ERROR
    && (forall p {:trigger ListFault(l, xs, p)} :: p in l.cls && l.cls[p] < c ==> ListFault(l, xs, p) == NO_ERROR)
    && (forall i {:trigger l.rings[c][i]} :: 0 < i < k ==> ListFault(l, xs, l.rings[c][i]) == NO_ERROR)
  }

  /** What the second pass objects to in block p. */
  ghost function BlockFault(l: Layout, p: int): int
    requires p in l.blocks
  {
    if l.blocks[p].alloc then NO_ERROR
    else if HasFreeLeft(l.blocks, p) && !(l.blocks[FreeLeft(l.blocks, p)].bulk && l.blocks[p].bulk) then
      ERROR_COALESCE_FAILED
    else if p !in l.cls then ERROR_ISOLATED_FREE_BLOCK
    else NO_ERROR
  }

  /** The blocks below p have no fault. */
  ghost predicate BlocksFine(l: Layout, p: int) {
    forall q {:trigger BlockFault(l, q)} :: q in l.blocks && q < p ==> BlockFault(l, q) == NO_ERROR
  }

  /** The blocks, in order of address, have their first fault at p. */
  ghost predicate FirstBlockFault(l: Layout, p: int, error: int) {
    p in l.blocks && BlockFault(l, p) == error != NO_ERROR && BlocksFine(l, p)
  }

  /** What mm_check reports: the first fault of the lists, or if they have none, that of the blocks. */
  ghost predicate Reported(l: Layout, xs: set<int>, error: int) {
    if !ListsFine(l, xs) then exists c, k :: FirstListFault(l, xs, c, k, error)
    else if error == NO_ERROR then BlocksFine(l, l.brk)
    else exists p :: FirstBlockFault(l, p, error)
  }

  /** Of two free blocks that touch, both are bulk blocks. */
  ghost predicate TouchingAreBulk(bs: Blocks) {
    forall p {:trigger End(bs, p)} ::
      IsFree(bs, p) && IsFree(bs, End(bs, p)) ==> bs[p].bulk && bs[End(bs, p)].bulk
  }

  /**
   * mm_check reports no error exactly if no listed block reads as allocated, every free block is
   * listed, in a fitting class, and free blocks that touch are bulk blocks.
   */
  lemma NoErrorExactly(l: Layout, xs: set<int>)
    requires l.Tiled() && l.Threaded() && forall p :: p in xs ==> p in l.cls
    ensures Reported(l, xs, NO_ERROR) <==> xs == {} && l.Classed() && l.AllListed() && TouchingAreBulk(l.blocks)
  {
    hide GetLowerBound;
    if ListsFine(l, xs) { FineLists(l, xs); }
    NoBlockFault(l);
  }

  lemma NoBlockFault(l: Layout)
    requires l.Tiled()
    ensures BlocksFine(l, l.brk) <==> l.AllListed() && TouchingAreBulk(l.blocks)
  {
    if BlocksFine(l, l.brk) {
      forall p | IsFree(l.blocks, p) ensures p in l.cls {
        assert InExtent(l.blocks, p, l.First(), l.brk) && BlockFault(l, p) == NO_ERROR;
      }
      forall p | IsFree(l.blocks, p) && IsFree(l.blocks, End(l.blocks, p))
        ensures l.blocks[p].bulk && l.blocks[End(l.blocks, p)].bulk
      {
        var q := End(l.blocks, p);
        assert InExtent(l.blocks, q, l.First(), l.brk) && BlockFault(l, q) == NO_ERROR;
        assert LeftOf(l.blocks, p, q);
        SameEnd(l.blocks, l.First(), l.brk, p, FreeLeft(l.blocks, q));
      }
    }
    if l.AllListed() && TouchingAreBulk(l.blocks) {
      forall p | p in l.blocks && p < l.brk ensures BlockFault(l, p) == NO_ERROR {
        assert !l.blocks[p].alloc ==> IsFree(l.blocks, p);
        if IsFree(l.blocks, p) && HasFreeLeft(l.blocks, p) { assert End(l.blocks, FreeLeft(l.blocks, p)) == p; }
      }
    }
  }

  /** p is free, and so is its left neighbour, and not both are bulk blocks. */
  ghost predicate Uncoalesced(l: Layout, p: int) {
    && IsFree(l.blocks, p) && HasFreeLeft(l.blocks, p)
    && !(l.blocks[p].bulk && l.blocks[FreeLeft(l.blocks, p)].bulk)
  }

  /**
   * What each report is about. The lists come first, and in them a block that reads as allocated
   * before one in a class that does not suit it; then the blocks, and at each of them its left
   * neighbour before its list.
   */
  lemma ReportMeans(l: Layout, xs: set<int>, error: int)
    requires l.Tiled() && l.Threaded() && (forall p :: p in xs ==> p in l.cls) && Reported(l, xs, error)
    ensures error == 0 || error == 1 || error == 2 || error == 3 || error == 4
    ensures error == 1 ==> xs != {}
    ensures error == 2 ==> exists p :: p in l.cls && p !in xs && p in l.blocks && !l.FitsAt(p)
    ensures error == 3 || error == 4 ==> xs == {} && l.Classed()
    ensures error == 3 ==> exists p :: Uncoalesced(l, p)
    ensures error == 4 ==> exists p :: IsFree(l.blocks, p) && p !in l.cls && !Uncoalesced(l, p)
  {
    hide GetLowerBound;
    if !ListsFine(l, xs) {
      var c, k :| FirstListFault(l, xs, c, k, error);
      assert l.RingAt(c) && l.ListedAt(l.rings[c][k]);
    } else {
      FineLists(l, xs);
      if error != NO_ERROR {
        var p :| FirstBlockFault(l, p, error);
        assert Uncoalesced(l, p) == (BlockFault(l, p) == ERROR_COALESCE_FAILED);
      }
    }
  }

  lemma FineLists(l: Layout, xs: set<int>)
    requires (forall p :: p in xs ==> p in l.cls) && ListsFine(l, xs)
    ensures xs == {} && l.Classed()
  {
    hide GetLowerBound;
    forall p ensures p !in xs { assert p in l.cls ==> ListFault(l, xs, p) == NO_ERROR; }
    assert xs == {};
    forall p | p in l.cls && p in l.blocks ensures l.FitsAt(p) { assert ListFault(l, xs, p) == NO_ERROR; }
  }

  /** One heap, one report. */
  lemma ReportUnique(l: Layout, xs: set<int>, error: int, error': int)
    requires l.Tiled() && l.Threaded() && Reported(l, xs, error) && Reported(l, xs, error')
    ensures error == error'
  {
    if !ListsFine(l, xs) {
      var c, k :| FirstListFault(l, xs, c, k, error);
      var c', k' :| FirstListFault(l, xs, c', k', error');
      assert l.RingAt(c) && l.RingAt(c');
      var p, p' := l.rings[c][k], l.rings[c'][k'];
      assert p in l.cls && p' in l.cls && ListFault(l, xs, p) == error && ListFault(l, xs, p') == error';
    } else {
      if error != NO_ERROR {
        var p :| FirstBlockFault(l, p, error);
        assert BlockFault(l, p) != NO_ERROR && InExtent(l.blocks, p, l.First(), l.brk);
      }
      if error' != NO_ERROR {
        var p' :| FirstBlockFault(l, p', error');
        assert BlockFault(l, p') != NO_ERROR && InExtent(l.blocks, p', l.First(), l.brk);
      }
    }
  }

  /** FREE_MARK and FREE_MARK_ERASE on a header. */
  function WithMark(w: int): int { if IsMarked(w) then w else w + MARKTAG }

  function WithoutMark(w: int): int { if IsMarked(w) then w - MARKTAG else w }

  ghost predicate WordMarked(m0: Memory, m: Memory, s: set<int>, a: int) {
    0 <= a < |m0| && |m| == |m0| ==> m[a] == m0[a] + if a + 4 in s then MARKTAG else 0
  }

  /** m is m0 with the headers of the blocks in s marked. */
  ghost predicate Marked(m0: Memory, m: Memory, l: Layout, s: set<int>) {
    && |m| == |m0|
    && (forall p :: p in s ==> p in l.cls)
    && (forall a {:trigger WordMarked(m0, m, s, a)} :: WordMarked(m0, m, s, a))
  }

  lemma MarkedNone(m0: Memory, l: Layout)
    ensures Marked(m0, m0, l, {})
  {
  }

  lemma UnmarkedAll(m0: Memory, m: Memory, l: Layout)
    requires Marked(m0, m, l, {})
    ensures m == m0
  {
    forall a | 0 <= a < |m0| ensures m[a] == m0[a] { assert WordMarked(m0, m, {}, a); }
  }

  /** A word at an 8-aligned address is never a listed block's header. */
  lemma OctetUnlisted(l: Layout, s: set<int>, a: int)
    requires l.Tiled() && l.Threaded() && a % 8 == 0 && forall p :: p in s ==> p in l.cls
    ensures a + 4 !in s
  {
    if a + 4 in s {
      assert l.ListedAt(a + 4) && Octets(l.blocks, a + 4);
      OctetSum(a + 4, a);
    }
  }

  lemma OctetUnmarked(m0: Memory, m: Memory, l: Layout, s: set<int>, a: int)
    requires Holds(m0, l) && Marked(m0, m, l, s) && 0 <= a < |m0| && a % 8 == 0
    ensures m[a] == m0[a]
  {
    assert WordMarked(m0, m, s, a);
    OctetUnlisted(l, s, a);
  }

  /** A block's header under marks: everything else can still be read off it. */
  lemma MarkedHeader(m0: Memory, m: Memory, l: Layout, s: set<int>, p: int)
    requires Holds(m0, l) && Marked(m0, m, l, s) && p in l.blocks
    ensures 0 < l.base && l.brk <= |m| && l.First() <= p && 16 <= l.blocks[p].size && End(l.blocks, p) <= l.brk
    ensures IsWord(l.base, l.brk, p - 4)
    ensures Describes(m[p - 4], l.blocks[p]) && IsMarked(m[p - 4]) == (p in s)
    ensures 16 <= m[p - 4] < l.brk + 8
  {
    hide SizeOf, IsAlloc, BulkBit, IsMarked, IsWord;
    var b := l.blocks[p];
    ReadBlock(m0, l, p);
    assert WordMarked(m0, m, s, p - 4);
    PackDecodes(b.size, b.alloc, b.bulk, p in s);
  }

  lemma MarkOne(m0: Memory, m: Memory, l: Layout, s: set<int>, p: int)
    requires Marked(m0, m, l, s) && p in l.cls && 0 <= p - 4 < |m|
    requires IsMarked(m[p - 4]) == (p in s)
    ensures Marked(m0, m[p - 4 := WithMark(m[p - 4])], l, s + {p})
  {
    hide IsMarked;
    var m' := m[p - 4 := WithMark(m[p - 4])];
    forall a ensures WordMarked(m0, m', s + {p}, a) { assert WordMarked(m0, m, s, a); }
  }

  lemma EraseOne(m0: Memory, m: Memory, l: Layout, s: set<int>, p: int)
    requires Holds(m0, l) && Marked(m0, m, l, s) && p in s && 0 <= p - 4 < |m|
    requires IsMarked(m[p - 4])
    ensures Marked(m0, m[p - 4 := WithoutMark(m[p - 4])], l, s - {p})
  {
    hide IsMarked;
    var m' := m[p - 4 := WithoutMark(m[p - 4])];
    forall a ensures WordMarked(m0, m', s - {p}, a) { assert WordMarked(m0, m, s, a); }
  }

  lemma NodeOctet(l: Layout, c: int, k: int)
    requires l.Tiled() && l.Threaded() && 0 <= c < |l.rings| && 0 <= k < |l.rings[c]|
    ensures l.rings[c][k] % 8 == 0
  {
    assert l.RingAt(c);
    var x := l.rings[c][k];
    if 0 < k < |l.rings[c]| - 1 {
      assert l.ListedAt(x) && Octets(l.blocks, x);
    } else {
      OctetSum(l.First(), 272);
      OctetSum(l.base, 8 * c) by { assert 8 * c % 8 == 0; }
    }
  }

  /** m0 holds l, m1 is m0 tampered with, and m is m1 with the listed blocks s marked. */
  ghost predicate UnderWay(m0: Memory, m1: Memory, m: Memory, l: Layout, xs: set<int>, s: set<int>) {
    Holds(m0, l) && Tampered(m0, m1, l, xs) && Marked(m1, m, l, s)
  }

  /** Following links during the first pass. */
  lemma MarkedWalk(m0: Memory, m1: Memory, m: Memory, l: Layout, xs: set<int>, s: set<int>, c: int, k: int)
    requires UnderWay(m0, m1, m, l, xs, s) && 0 <= c < |l.rings| && 0 <= k < |l.rings[c]| - 1
    ensures l.brk <= |m| && 0 < l.base && WordPair(l, l.rings[c][k]) && m[l.rings[c][k]] == l.rings[c][k + 1]
    ensures l.RingAt(c) && l.rings[c][0] == l.Root(c)
    ensures l.rings[c][k + 1] == l.Root(c) <==> k + 1 == |l.rings[c]| - 1
  {
    hide IsWord;
    var a := l.rings[c][k];
    WalkRing(m0, l, c, k);
    NodeOctet(l, c, k);
    OctetUnlisted(l, s, a);
    OctetUnlisted(l, xs, a);
    assert WordMarked(m1, m, s, a) && WordTampered(m0, m1, xs, a);
  }

  /** The header at node k of list c, during the first pass. */
  lemma MarkedNode(m0: Memory, m1: Memory, m: Memory, l: Layout, xs: set<int>, s: set<int>, c: int, k: int)
    requires UnderWay(m0, m1, m, l, xs, s) && 0 <= c < |l.rings| && 0 < k < |l.rings[c]| - 1
    ensures
      var p := l.rings[c][k];
      && 0 < l.base && l.brk <= |m| && 4 <= p && p + 16 <= l.brk && IsWord(l.base, l.brk, p - 4)
      && p in l.cls && l.cls[p] == c && p in l.blocks
      && 16 <= m[p - 4] < l.brk + 8
      && SizeOf(m[p - 4]) == l.blocks[p].size && IsAlloc(m[p - 4]) == (p in xs)
      && (BulkBit(m[p - 4]) != FREETAG <==> l.blocks[p].bulk) && IsMarked(m[p - 4]) == (p in s)
  {
    hide SizeOf, IsAlloc, BulkBit, IsMarked, IsWord;
    var p := l.rings[c][k];
    assert l.RingAt(c) && l.ListedAt(p);
    ReadBlock(m0, l, p);
    assert WordMarked(m1, m, s, p - 4) && WordTampered(m0, m1, xs, p - 4);
    PackDecodes(l.blocks[p].size, p in xs, l.blocks[p].bulk, p in s);
  }

  /** Every block of the classes below c, and the first k - 1 of list c, is in s. */
  ghost predicate ListedBelow(l: Layout, c: int, k: int, s: set<int>) {
    && (forall p {:trigger l.cls[p]} :: p in l.cls && l.cls[p] < c ==> p in s)
    && (0 <= c < |l.rings| ==>
          forall i {:trigger l.rings[c][i]} :: 0 < i < k && i < |l.rings[c]| - 1 ==> l.rings[c][i] in s)
  }

  /** The blocks in s have no fault. */
  ghost predicate Faultless(l: Layout, xs: set<int>, s: set<int>) {
    forall p {:trigger ListFault(l, xs, p)} :: p in s ==> ListFault(l, xs, p) == NO_ERROR
  }

  /** Every node before node k of list c was fine, this one is not. */
  lemma FaultFound(l: Layout, xs: set<int>, c: int, k: int, s: set<int>)
    requires 0 <= c < |l.rings| && 0 < k < |l.rings[c]| - 1 && ListedBelow(l, c, k, s) && Faultless(l, xs, s)
    requires l.Threaded() && ListFault(l, xs, l.rings[c][k]) != NO_ERROR
    ensures FirstListFault(l, xs, c, k, ListFault(l, xs, l.rings[c][k])) && !ListsFine(l, xs)
  {
    hide ListFault;
    assert l.RingAt(c);
    forall i | 0 < i < k ensures ListFault(l, xs, l.rings[c][i]) == NO_ERROR {
      assert l.rings[c][i] in s;
    }
  }

  lemma ListedOneMore(l: Layout, xs: set<int>, c: int, k: int, s: set<int>, p: int)
    requires 0 <= c < |l.rings| && 0 < k < |l.rings[c]| - 1 && l.rings[c][k] == p && ListedBelow(l, c, k, s)
    requires Faultless(l, xs, s) && ListFault(l, xs, p) == NO_ERROR
    ensures ListedBelow(l, c, k + 1, s + {p}) && Faultless(l, xs, s + {p})
  {
    hide ListFault;
  }

  lemma FaultlessNone(l: Layout, xs: set<int>)
    ensures Faultless(l, xs, {})
  {
  }

  lemma ListedNext(l: Layout, c: int, s: set<int>)
    requires l.Threaded() && 0 <= c < |l.rings| && ListedBelow(l, c, |l.rings[c]| - 1, s)
    ensures ListedBelow(l, c + 1, 1, s)
  {
    forall p | p in l.cls && l.cls[p] < c + 1 ensures p in s {
      if l.cls[p] == c {
        assert l.ListedAt(p);
        assert l.rings[c][Position(l.rings[c], p)] in s;
      }
    }
  }

  lemma ListedAll(m0: Memory, m1: Memory, l: Layout, xs: set<int>, s: set<int>)
    requires l.Threaded() && ListedBelow(l, SIZE_CLASS_NUM, 1, s) && Faultless(l, xs, s) && Tampered(m0, m1, l, xs)
    ensures ListsFine(l, xs) && xs == {} && forall p :: p in l.cls ==> p in s
  {
    hide GetLowerBound;
    forall p | p in l.cls ensures p in s { assert l.ListedAt(p) && l.cls[p] < SIZE_CLASS_NUM; }
    forall p ensures p !in xs { assert p in l.cls ==> ListFault(l, xs, p) == NO_ERROR; }
    assert xs == {};
  }

  lemma ListedIsBlock(l: Layout, p: int)
    requires l.Threaded()
    ensures p in l.cls ==> p in l.blocks
  {
    if p in l.cls { assert l.ListedAt(p); }
  }

  /** The second pass at block p: what it reads of p and of the block before it. */
  lemma MarkedAround(m0: Memory, m: Memory, l: Layout, s: set<int>, p: int)
    requires Holds(m0, l) && Marked(m0, m, l, s) && p in l.blocks
    ensures 0 < l.base && l.brk <= |m| && l.base + 264 <= p - 8 && p + 16 <= l.brk
    ensures IsWord(l.base, l.brk, p - 4) && IsWord(l.base, l.brk, p - 8)
    ensures Describes(m[p - 4], l.blocks[p]) && IsMarked(m[p - 4]) == (p in s) && 16 <= m[p - 4] < l.brk + 8
    ensures
      var q := p - SizeOf(m[p - 8]);
      && l.base + 264 <= q < p && IsWord(l.base, l.brk, q - 4)
      && (HasFreeLeft(l.blocks, p) <==> !IsAlloc(m[q - 4]))
      && (HasFreeLeft(l.blocks, p) ==>
            FreeLeft(l.blocks, p) == q && (l.blocks[q].bulk <==> BulkBit(m[q - 4]) != FREETAG))
  {
    hide SizeOf, IsAlloc, BulkBit, IsMarked, IsWord, HasFreeLeft;
    MarkedHeader(m0, m, l, s, p);
    ReadPrev(m0, l, p);
    LeftIsSeen(m0, l, p);
    assert Octets(l.blocks, p);
    OctetUnmarked(m0, m, l, s, p - 8) by { OctetSum(p, 8); }
    var q := p - SizeOf(m[p - 8]);
    ListedIsBlock(l, q);
    if q in l.blocks {
      MarkedHeader(m0, m, l, s, q);
    } else {
      assert WordMarked(m0, m, s, q - 4);
    }
  }

  /** The listed blocks from p on, and no others, are in s. */
  ghost predicate MarkedFrom(l: Layout, p: int, s: set<int>) {
    forall q {:trigger q in s} {:trigger q in l.cls} :: q in s <==> q in l.cls && p <= q
  }

  lemma MarkedFromNext(m0: Memory, l: Layout, p: int, s: set<int>)
    requires Holds(m0, l) && p in l.blocks && MarkedFrom(l, p, s) && BlocksFine(l, p)
    ensures MarkedFrom(l, End(l.blocks, p), s - {p}) && p < End(l.blocks, p) && (p in l.cls <==> p in s)
    ensures End(l.blocks, p) in l.blocks || End(l.blocks, p) == l.brk
    ensures p !in s ==> s - {p} == s
    ensures BlockFault(l, p) == NO_ERROR ==> BlocksFine(l, End(l.blocks, p))
    ensures p in s ==> !l.blocks[p].alloc
  {
    hide BlockFault;
    assert InExtent(l.blocks, p, l.First(), l.brk);
    assert p in s ==> l.ListedAt(p);
    forall q | q in l.cls && p <= q && q != p ensures End(l.blocks, p) <= q {
      assert l.ListedAt(q) && Apart(l.blocks, p, q);
    }
    forall q | q in l.blocks && q < End(l.blocks, p) && BlockFault(l, p) == NO_ERROR
      ensures BlockFault(l, q) == NO_ERROR
    {
      assert q != p ==> Apart(l.blocks, p, q) && Apart(l.blocks, q, p);
    }
  }

  lemma MarkedFromFirst(m0: Memory, m: Memory, l: Layout, s: set<int>)
    requires Holds(m0, l) && Marked(m0, m, l, s) && forall p :: p in l.cls ==> p in s
    ensures MarkedFrom(l, l.First(), s) && BlocksFine(l, l.First())
  {
    forall q | q in s ensures l.First() <= q { assert l.ListedAt(q) && InExtent(l.blocks, q, l.First(), l.brk); }
    forall q | q in l.blocks ensures l.First() <= q { assert InExtent(l.blocks, q, l.First(), l.brk); }
  }

  lemma MarkedNoMore(m0: Memory, m: Memory, l: Layout, s: set<int>)
    requires Holds(m0, l) && Marked(m0, m, l, s) && MarkedFrom(l, l.brk, s)
    ensures m == m0 && s == {}
  {
    forall q | q in l.cls ensures q < l.brk { assert l.ListedAt(q) && InExtent(l.blocks, q, l.First(), l.brk); }
    forall q ensures q !in s { assert q in l.cls ==> q < l.brk; }
    assert s == {};
    UnmarkedAll(m0, m, l);
  }

  lemma ListedBelowNone(l: Layout)
    requires l.Threaded()
    ensures ListedBelow(l, 0, 1, {})
  {
    forall p | p in l.cls ensures l.cls[p] >= 0 { assert l.ListedAt(p); }
  }

  /** Headers at block boundaries: zero at the break only. */
  lemma MarkedSize(m0: Memory, m: Memory, l: Layout, s: set<int>, p: int)
    requires Holds(m0, l) && Marked(m0, m, l, s) && (p in l.blocks || p == l.brk)
    ensures 0 < l.base && l.base + 264 < p <= l.brk <= |m| && IsWord(l.base, l.brk, p - 4)
    ensures SizeOf(m[p - 4]) == 0 <==> p == l.brk
  {
    hide SizeOf, IsWord, IsAlloc, BulkBit, IsMarked;
    if p in l.blocks { MarkedHeader(m0, m, l, s, p); } else { MarkedBreak(m0, m, l, s); }
  }

  /** The header at the break under marks: the epilogue, unmarked. */
  lemma MarkedBreak(m0: Memory, m: Memory, l: Layout, s: set<int>)
    requires Holds(m0, l) && Marked(m0, m, l, s)
    ensures 0 < l.base && l.First() <= l.brk <= |m| && IsWord(l.base, l.brk, l.brk - 4) && SizeOf(m[l.brk - 4]) == 0
  {
    hide IsWord, SizeOf;
    EpilogueDecodes();
    WordsAround(l.base, l.brk, l.brk);
    assert WordMarked(m0, m, s, l.brk - 4);
    assert l.brk in s ==> l.ListedAt(l.brk) && InExtent(l.blocks, l.brk, l.First(), l.brk);
  }

  lemma MarkedPrologue(m0: Memory, m: Memory, l: Layout, s: set<int>)
    requires Holds(m0, l) && Marked(m0, m, l, s)
    ensures 0 < l.base && l.First() <= l.brk <= |m| && IsWord(l.base, l.brk, l.base + 260)
    ensures l.base + 264 + SizeOf(m[l.base + 260]) == l.First()
    ensures l.First() in l.blocks || l.First() == l.brk
  {
    hide IsWord, SizeOf;
    FirstFooter(m0, l);
    assert WordMarked(m0, m, s, l.base + 260);
    assert l.base + 264 in s ==> l.ListedAt(l.base + 264) && InExtent(l.blocks, l.base + 264, l.First(), l.brk);
  }
}
