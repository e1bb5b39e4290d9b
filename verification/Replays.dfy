/** Sequences of calls on the allocator, and what they leave behind. */
module Replays {
  import opened SizeClasses
  import opened Blocks
  import opened Rings
  import opened Layouts
  import opened Heaps
  import opened Sizing
  import opened Gaps
  import opened Coalescing
  import opened Merging
  import opened Freeing
  import opened Fitting
  import opened Starting
  import opened Listings
  import opened Relisting
  import opened Placing
  import opened Machine
  import opened Allocators
  import Overgrowing
  import Regrowing

  /** Two heaps of the same range that hold the same extents are partitioned alike. */
  lemma HeldDeterminesPartition(m: Memory, l: Layout, m': Memory, l': Layout)
    requires Holds(m, l) && Holds(m', l') && Coalesced(l.blocks) && Coalesced(l'.blocks)
    requires l.base == l'.base && l.brk == l'.brk && SameHeld(l.blocks, l'.blocks)
    ensures SamePartition(l.blocks, l'.blocks)
  {
    PartitionDetermined(l.blocks, l'.blocks, l.First(), l.brk);
  }

  lemma HeldRestored(held: Blocks, p: int, b: Block)
    requires p !in held
    ensures held[p := b] - {p} == held
  {
  }

  /**
   * Allocates and frees at once. If the heap did not have to grow, every extent and allocation
   * bit is as before, whatever was split and merged on the way.
   */
  method MallocThenFree(mm: Allocator, size: int) returns (served: bool)
    requires mm.Valid() && 0 <= size && size + 15 < 0x1_0000_0000 && mm.Servable(size)
    modifies mm.lib.cells, mm`layout, mm.lib`brk, mm.lib`errno, if mm.glRanges == null then {} else {mm.glRanges}
    ensures mm.Valid() && mm.Held() == old(mm.Held())
    ensures Keeps(old(mm.View()), mm.View(), mm.Held())
    ensures mm.lib.brk == old(mm.lib.brk) ==> SamePartition(old(mm.layout).blocks, mm.layout.blocks)
  {
    hide Holds, Keeps, Coalesced, MergeAround, StaleHeaders, FirstFit, NoneFits, SamePartition, Released, HeadsList;
    ghost var m, l, held := mm.View(), mm.layout, mm.Held();
    var p := mm.Malloc(size);
    served := p != 0;
    ghost var m1 := mm.View();
    if served {
      HeldRestored(held, p, mm.Held()[p]);
      mm.Free(p);
      KeepsTrans(m, m1, mm.View(), held, held);
    }
    if mm.lib.brk == old(mm.lib.brk) { HeldDeterminesPartition(m, l, mm.View(), mm.layout); }
  }

  /** Frees the held blocks ps in the given order. */
  method FreeEach(mm: Allocator, ps: seq<int>)
    requires mm.Valid() && (forall i {:trigger ps[i]} :: 0 <= i < |ps| ==> ps[i] in mm.Held())
    requires forall i, j {:trigger ps[i], ps[j]} :: 0 <= i < j < |ps| ==> ps[i] != ps[j]
    modifies mm.lib.cells, mm`layout, if mm.glRanges == null then {} else {mm.glRanges}
    ensures mm.Valid() && mm.layout.base == old(mm.layout).base && mm.lib.brk == old(mm.lib.brk)
    ensures forall p {:trigger p in mm.Held()} :: p in mm.Held() <==> p in old(mm.Held()) && p !in ps
    ensures forall p {:trigger mm.Held()[p]} :: p in mm.Held() ==> mm.Held()[p] == old(mm.Held())[p]
    ensures Keeps(old(mm.View()), mm.View(), mm.Held())
  {
    hide Holds, Keeps, Coalesced, MergeAround, StaleHeaders, NoneFits, Released, HeadsList;
    ghost var m, held := mm.View(), mm.Held();
    KeepsSame(m, held);
    var i := 0;
    while i < |ps|
      invariant 0 <= i <= |ps| && mm.Valid() && mm.layout.base == old(mm.layout).base
      invariant forall p {:trigger p in mm.Held()} :: p in mm.Held() <==> p in held && p !in ps[..i]
      invariant forall p {:trigger mm.Held()[p]} :: p in mm.Held() ==> mm.Held()[p] == held[p]
      invariant Keeps(m, mm.View(), mm.Held())
    {
      ghost var m1, held1 := mm.View(), mm.Held();
      assert ps[i] !in ps[..i];
      mm.Free(ps[i]);
      KeepsSub(m, m1, held1, mm.Held());
      KeepsTrans(m, m1, mm.View(), mm.Held(), mm.Held());
      assert ps[..i + 1] == ps[..i] + [ps[i]];
      i := i + 1;
    }
    assert ps[..i] == ps;
  }

  /** The two allocators share no memory. */
  ghost predicate Unshared(mm: Allocator, mm': Allocator)
    reads mm, mm'
  {
    && mm != mm' && mm.lib != mm'.lib && mm.lib.cells != mm'.lib.cells
    && (mm.glRanges == null || mm.glRanges != mm'.glRanges)
  }

  /**
   * Two heaps that hold the same blocks, on one of which ps are freed in that order and on the
   * other in the order qs, are partitioned alike afterwards.
   */
  method FreeInTwoOrders(mm: Allocator, ps: seq<int>, mm': Allocator, qs: seq<int>)
    requires mm.Valid() && mm'.Valid() && Unshared(mm, mm')
    requires mm.layout.base == mm'.layout.base && mm.lib.brk == mm'.lib.brk && mm.Held() == mm'.Held()
    requires multiset(ps) == multiset(qs) && forall i {:trigger ps[i]} :: 0 <= i < |ps| ==> ps[i] in mm.Held()
    requires forall i, j {:trigger ps[i], ps[j]} :: 0 <= i < j < |ps| ==> ps[i] != ps[j]
    modifies mm.lib.cells, mm`layout, if mm.glRanges == null then {} else {mm.glRanges}
    modifies mm'.lib.cells, mm'`layout, if mm'.glRanges == null then {} else {mm'.glRanges}
    ensures mm.Valid() && mm'.Valid()
    ensures SamePartition(mm.layout.blocks, mm'.layout.blocks)
  {
    hide Holds, Keeps, Coalesced, SamePartition;
    ghost var held := mm.Held();
    Permuted(ps, qs);
    AllHeld(ps, qs, held);
    FreeEach(mm, ps);
    FreeEach(mm', qs);
    HeldAlike(held, mm.Held(), mm'.Held(), ps, qs);
    HeldDeterminesPartition(mm.View(), mm.layout, mm'.View(), mm'.layout);
  }

  function Among(ps: seq<int>): set<int> { set p | p in ps }

  lemma AllHeld(ps: seq<int>, qs: seq<int>, held: Blocks)
    requires forall i {:trigger ps[i]} :: 0 <= i < |ps| ==> ps[i] in held
    requires Among(ps) == Among(qs)
    ensures forall i {:trigger qs[i]} :: 0 <= i < |qs| ==> qs[i] in held
  {
    forall i | 0 <= i < |qs| ensures qs[i] in held {
      assert qs[i] in Among(qs);
    }
  }

  /** What is left of the held blocks when the same ones are freed. */
  lemma HeldAlike(held: Blocks, h: Blocks, h': Blocks, ps: seq<int>, qs: seq<int>)
    requires Among(ps) == Among(qs)
    requires forall p {:trigger p in h} :: p in h <==> p in held && p !in ps
    requires forall p {:trigger p in h'} :: p in h' <==> p in held && p !in qs
    requires forall p {:trigger h[p]} :: p in h ==> h[p] == held[p]
    requires forall p {:trigger h'[p]} :: p in h' ==> h'[p] == held[p]
    ensures h == h'
  {
    forall p ensures p in h <==> p in h' { assert p in Among(ps) <==> p in Among(qs); }
    assert h.Keys == h'.Keys;
    forall p | p in h ensures h[p] == h'[p] { assert h[p] == held[p] && h'[p] == held[p]; }
  }

  /** A permutation of distinct elements has the same, distinct, elements. */
  lemma Permuted(ps: seq<int>, qs: seq<int>)
    requires multiset(ps) == multiset(qs)
    requires forall i, j {:trigger ps[i], ps[j]} :: 0 <= i < j < |ps| ==> ps[i] != ps[j]
    ensures Among(ps) == Among(qs)
    ensures forall i, j {:trigger qs[i], qs[j]} :: 0 <= i < j < |qs| ==> qs[i] != qs[j]
  {
    forall p ensures p in Among(ps) <==> p in Among(qs) { assert p in multiset(ps) <==> p in multiset(qs); }
    forall i, j | 0 <= i < j < |qs| ensures qs[i] != qs[j] {
      if qs[i] == qs[j] {
        Twice(qs, i, j);
        OnceOnly(ps, qs[i]);
      }
    }
  }

  lemma Twice(s: seq<int>, i: nat, j: nat)
    requires i < j < |s| && s[i] == s[j]
    ensures multiset(s)[s[i]] >= 2
  {
    assert s == s[..j] + [s[j]] + s[j + 1..];
    assert s[i] in multiset(s[..j]);
  }

  lemma {:induction false} OnceOnly(s: seq<int>, x: int)
    requires forall i, j {:trigger s[i], s[j]} :: 0 <= i < j < |s| ==> s[i] != s[j]
    ensures multiset(s)[x] <= 1
  {
    if s != [] {
      OnceOnly(s[1..], x);
      assert s == [s[0]] + s[1..];
      assert s[0] !in s[1..];
    }
  }

  /** A block that takes up the whole heap: its end is the break. */
  lemma WholeHeap(m: Memory, l: Layout, p: int)
    requires Holds(m, l) && p in l.blocks && l.blocks[p].size >= l.brk - l.First()
    ensures p == l.First() && End(l.blocks, p) == l.brk
    ensures forall n :: !Regrowing.RoomBehind(l, p, n)
  {
    assert InExtent(l.blocks, p, l.First(), l.brk);
    assert l.brk in l.blocks ==> InExtent(l.blocks, l.brk, l.First(), l.brk);
  }

  /**
   * The first block of a fresh heap, 1008 bytes up to the break, cannot be grown: the call
   * leaves the storage, or a heap that no layout explains. l is the heap before that call.
   */
  method GrowthCanFail(mm: Allocator) returns (p: int, o: Outcome<int>, ghost l: Layout)
    requires mm.lib.Valid() && mm.lib.brk % 8 == 0 && mm.lib.brk + 1280 <= mm.lib.maxAddr
    requires Regrowing.Spacious(mm.lib.brk, mm.lib.maxAddr)
    modifies mm, mm.lib.cells, mm.lib`brk, mm.lib`errno
    ensures l.base == old(mm.lib.brk) && l.brk == old(mm.lib.brk) + 1280
    ensures p in l.blocks && Live(l.blocks).Keys == {p} && l.blocks[p].size == 1008
    ensures o.Wild? || !Overgrowing.Explained(l, p, 2008, mm.View())
  {
    hide Holds, Keeps, Coalesced, MergeAround, StaleHeaders, FirstFit, Overgrowing.Explained, Regrowing.RoomBehind;
    var _ := mm.Init(null);
    p := mm.Malloc(1000);
    l := mm.layout;
    WholeHeap(mm.View(), l, p);
    o := mm.Realloc(p, 2000);
  }

  /** The class a request of 100 bytes belongs to, and the one of 8 bytes. */
  lemma RunClasses()
    ensures Align(108) == 112 && GetSizeClass(112) == 6 && Align(16) == 16 && GetSizeClass(16) == 0
    ensures GetLowerBound(6) == 96 && GetLowerBound(0) == 0
  {
  }

  /** An empty heap has no block to take in. */
  lemma FreshGrows(base: int, asize: int)
    requires base % 8 == 0 && 16 <= asize
    ensures
      var l := EmptyLayout(base);
      && l.Tiled() && l.Threaded() && Coalesced(l.blocks) && NoneFits(l, GetSizeClass(asize), SIZE_CLASS_NUM, asize)
      && BulkAt(l) == PlainAt(l, asize) == base + 272 && !EndsPlain(l)
  {
    hide GetSizeClass;
    var l := EmptyLayout(base);
    forall c | 0 <= c < |l.rings| ensures l.RingAt(c) {}
  }

  /** The first small request on a fresh heap, and what it leaves in the lists. */
  lemma FreshServed(base: int, asize: int)
    requires base % 8 == 0 && 16 <= asize
    ensures
      var l, p := Placed(BulkGrown(EmptyLayout(base), asize), base + 272, asize, 0), base + 272;
      && l.blocks == map[p := Block(asize, true, true), p + asize := Block(7 * asize, false, true)]
      && l.base == base && l.brk == p + 8 * asize && l.cls == map[p + asize := GetSizeClass(asize)]
  {
    hide GetSizeClass;
    FreshGrows(base, asize);
    BulkServed(EmptyLayout(base), asize);
  }

  /** The first large request on a fresh heap. */
  lemma FreshPlain(base: int, asize: int)
    requires base % 8 == 0 && 16 <= asize && asize % 8 == 0
    ensures
      var l, p := Placed(PlainGrown(EmptyLayout(base), asize), base + 272, asize, 0), base + 272;
      && l.blocks == map[p := Block(asize, true, false)] && l.base == base && l.brk == p + asize && l.cls == map[]
  {
    hide GetSizeClass, Kept;
    var l0, p := EmptyLayout(base), base + 272;
    FreshGrows(base, asize);
    ListAtEnd(l0, p, Block(asize, false, false), l0.brk + asize, GetSizeClass(asize));
    assert PlainGrown(l0, asize).ListedAt(p);
  }

  /** The first request on a fresh heap: up to 504 bytes it gets an eighth of a bulk block, above that a block alone. */
  method FirstRequest(mm: Allocator, size: int) returns (p: int)
    requires mm.lib.Valid() && mm.lib.brk % 8 == 0 && 0 < size
    requires
      var asize := Align(size + 8);
      mm.lib.brk + 272 + (if size <= 504 then 8 * asize else asize) <= mm.lib.maxAddr
    modifies mm, mm.lib.cells, mm.lib`brk, mm.lib`errno
    ensures mm.Valid() && mm.glRanges == null && p == old(mm.lib.brk) + 272 && mm.layout.base == old(mm.lib.brk)
    ensures
      var asize := Align(size + 8);
      if size <= 504 then
        && mm.lib.brk == p + 8 * asize && mm.layout.cls == map[p + asize := GetSizeClass(asize)]
        && mm.layout.blocks == map[p := Block(asize, true, true), p + asize := Block(7 * asize, false, true)]
      else
        && mm.lib.brk == p + asize && mm.layout.cls == map[]
        && mm.layout.blocks == map[p := Block(asize, true, false)]
  {
    hide Holds, Keeps, Coalesced, GetSizeClass, FirstFit, NoneFits, Placed, BulkGrown, PlainGrown;
    var _ := mm.Init(null);
    ghost var base, asize := mm.layout.base, Align(size + 8);
    FreshGrows(base, asize);
    p := mm.Malloc(size);
    if size <= 504 { FreshServed(base, asize); } else { FreshPlain(base, asize); }
  }

  /**
   * A small request, then a larger one: what is left of the first bulk block is large enough
   * for the second, but sits in a lower list. So the heap grows again.
   */
  method SmallThenLarger(mm: Allocator) returns (p: int, q: int)
    requires mm.lib.Valid() && mm.lib.brk % 8 == 0 && mm.lib.brk + 1296 <= mm.lib.maxAddr
    modifies mm, mm.lib.cells, mm.lib`brk, mm.lib`errno
    ensures mm.Valid() && p == old(mm.lib.brk) + 272 && q == old(mm.lib.brk) + 400
    ensures mm.lib.brk == old(mm.lib.brk) + 1296
    ensures p + 16 in mm.layout.blocks && mm.layout.blocks[p + 16] == Block(112, false, true)
  {
    hide Holds, Keeps, Coalesced, GetSizeClass;
    RunClasses();
    p := FirstRequest(mm, 8);
    ghost var l := mm.layout;
    HoldsTiled(mm.View(), l);
    BulkServed(l, 112);
    q := mm.Malloc(100);
  }

  /** A search that starts at list k takes the head of that list if it fits. */
  lemma HeadTaken(l: Layout, xs: set<int>, l0: Layout, p: int, k: int, asize: int, bp: int)
    requires l.Threaded() && HeadsList(l0, l, xs, p, k) && p in l.blocks && l.blocks[p].size >= asize
    requires bp in l.cls && FirstFit(l, bp, l.cls[bp], k, asize)
    ensures bp == p
  {
    assert l.RingAt(k) && l.rings[k][1] == p && p in l.cls && l.cls[p] == k;
    assert l.cls[bp] > k ==> TooSmall(l, p, asize);
    assert Position(l.rings[k], bp) > 1 ==> TooSmall(l, l.rings[k][1], asize);
  }

  /**
   * Frees a block between held ones and allocates as much again: the same block is returned,
   * and nothing else has moved.
   */
  method FreeThenMalloc(mm: Allocator, p: int, size: int) returns (q: int)
    requires mm.Valid() && p in mm.Held() && 0 < size && Align(size + 8) == mm.Held()[p].size
    requires !HasFreeLeft(mm.layout.blocks, p) && !IsFree(mm.layout.blocks, End(mm.layout.blocks, p))
    modifies mm.lib.cells, mm`layout, mm.lib`brk, mm.lib`errno, if mm.glRanges == null then {} else {mm.glRanges}
    ensures mm.Valid() && q == p && mm.lib.brk == old(mm.lib.brk)
    ensures mm.Held().Keys == old(mm.Held()).Keys && mm.Held()[p].size == old(mm.Held())[p].size
    ensures mm.Held() - {p} == old(mm.Held()) - {p}
  {
    hide Holds, Keeps, Coalesced, MergeAround, StaleHeaders, NoneFits, FirstFit, Placed, Released, HeadsList;
    hide GetSizeClass, PlainGrown, BulkGrown, PlainAt, BulkAt;
    ghost var l0 := mm.layout;
    NothingJoined(mm.View(), l0, p);
    ReadBlock(mm.View(), l0, p);
    mm.Free(p);
    ghost var l := mm.layout;
    HoldsTiled(mm.View(), l);
    assert mm.CanFit(Align(size + 8));
    q := mm.Malloc(size);
    HeadTaken(l, Joined(Freed(l0.blocks, p), p) - {p}, l0, p, GetSizeClass(Align(size + 8)), Align(size + 8), q);
    PlacedAnew(l, p, Align(size + 8), l.cls[p]);
  }

  /** With no free neighbour, the released block stays as it is. */
  lemma NothingJoined(m: Memory, l: Layout, p: int)
    requires Holds(m, l) && Coalesced(l.blocks) && p in l.blocks && l.blocks[p].alloc
    requires !HasFreeLeft(l.blocks, p) && !IsFree(l.blocks, End(l.blocks, p))
    ensures
      var bs := Freed(l.blocks, p);
      JoinedStart(bs, p) == p && MergeAround(bs, p) == bs && bs[p].size == l.blocks[p].size
  {
    var bs := Freed(l.blocks, p);
    HoldsTiled(m, l);
    FreedBlocks(l, p);
    assert InExtent(l.blocks, p, l.First(), l.brk);
    if HasFreeLeft(bs, p) { assert LeftOf(l.blocks, FreeLeft(bs, p), p); }
  }

  /** The only free block, a bulk block in the request's class with a large enough rest, serves the request. */
  lemma OnlyServed(l: Layout, q: int, asize: int)
    requires l.Threaded() && l.cls == map[q := GetSizeClass(asize)] && q in l.blocks && l.blocks[q].bulk
    requires asize > 0 && l.blocks[q].size >= 2 * asize && asize >= 16
    ensures !NoneFits(l, GetSizeClass(asize), SIZE_CLASS_NUM, asize)
    ensures
      var l', rest := Placed(l, q, asize, l.cls[q]), l.blocks[q].size - asize;
      && l'.cls == map[q + asize := GetSizeClass(asize)]
      && l'.blocks == l.blocks[q := Block(asize, true, true)][q + asize := Block(rest, false, true)]
  {
    hide GetSizeClass, GetLowerBound;
    assert l.ListedAt(q) && q in l.cls;
    assert NoneFits(l, GetSizeClass(asize), SIZE_CLASS_NUM, asize) ==> TooSmall(l, q, asize);
    ClassFloor(asize);
    PlacedInList(l, q, asize, l.cls[q]);
  }

  /** Three requests of 100 bytes on a fresh heap, the second freed and asked for again. */
  method FreedIsReused(mm: Allocator) returns (p: int, q: int, r: int, again: int)
    requires mm.lib.Valid() && mm.lib.brk % 8 == 0 && mm.lib.brk + 1168 <= mm.lib.maxAddr
    modifies mm, mm.lib.cells, mm.lib`brk, mm.lib`errno
    ensures mm.Valid() && p == old(mm.lib.brk) + 272 && q == p + 112 && r == q + 112
    ensures again == q && mm.lib.brk == old(mm.lib.brk) + 1168
  {
    hide Holds, Keeps, Coalesced, GetSizeClass, NoneFits, Placed, Released, HeadsList, MergeAround, StaleHeaders;
    hide PlainGrown, BulkGrown, PlainAt, BulkAt, Layout.Threaded, Layout.Tiled;
    RunClasses();
    p := FirstRequest(mm, 100);
    HoldsTiled(mm.View(), mm.layout);
    OnlyServed(mm.layout, p + 112, 112);
    q := mm.Malloc(100);
    HoldsTiled(mm.View(), mm.layout);
    OnlyServed(mm.layout, q + 112, 112);
    r := mm.Malloc(100);
    assert mm.layout.blocks == map[p := Block(112, true, true), q := Block(112, true, true),
                                   r := Block(112, true, true), r + 112 := Block(560, false, true)];
    again := FreeThenMalloc(mm, q, 100);
  }
}
