/** Which block each call lists, where, and what becomes of the other lists. */
module Relisting {
  import opened SizeClasses
  import opened Tags
  import opened Blocks
  import opened Rings
  import opened Layouts
  import opened Heaps
  import opened Coalescing
  import opened Merging
  import opened Sizing
  import opened Freeing
  import opened Extending
  import opened Fitting
  import opened Listings

  /** p in front of list c. */
  function Enlist(l: Layout, p: int, c: int): Layout {
    if 0 <= c < |l.rings| && |l.rings[c]| >= 2 then l.Insert(p, c) else l
  }

  /** The layout after coalesce at p. */
  ghost function Rejoined(l: Layout, p: int): Layout
    requires p in l.blocks
  {
    if !HasFreeLeft(l.blocks, p) && !IsFree(l.blocks, End(l.blocks, p)) then l
    else
      var bs, r := MergeAround(l.blocks, p), JoinedStart(l.blocks, p);
      Enlist(Unlist(l, Joined(l.blocks, p)).(blocks := bs), r, GetSizeClass(if r in bs then bs[r].size else 0))
  }

  /** The layout after mm_free of p. */
  ghost function Released(l: Layout, p: int): Layout
    requires p in l.blocks
  {
    Rejoined(Enlist(l.(blocks := Freed(l.blocks, p)), p, GetSizeClass(l.blocks[p].size)), p)
  }

  /** Same members taken out, same rest. */
  lemma {:induction false} KeptSame(r: Ring, xs: set<int>, ys: set<int>)
    requires forall k {:trigger r[k]} :: 0 <= k < |r| ==> (r[k] in xs <==> r[k] in ys)
    ensures Kept(r, xs) == Kept(r, ys)
  {
    if r != [] {
      assert r[0] == r[0];
      KeptSame(r[1..], xs, ys);
    }
  }

  /** Roots stay. */
  lemma {:induction false} KeptEnds(r: Ring, xs: set<int>)
    requires |r| >= 2 && r[0] !in xs && r[|r| - 1] !in xs
    ensures var s := Kept(r, xs); |s| >= 2 && s[0] == r[0]
  {
    assert r == [r[0]] + (r[1..|r| - 1] + [r[|r| - 1]]);
    KeptConcat([r[0]], r[1..|r| - 1] + [r[|r| - 1]], xs);
    KeptConcat(r[1..|r| - 1], [r[|r| - 1]], xs);
  }

  /** Taking p, then its right, then its left neighbour out. */
  lemma GatheredUnlist(l: Layout, p: int)
    requires p in l.blocks
    ensures
      var xs := if IsFree(l.blocks, End(l.blocks, p)) then {End(l.blocks, p)} else {};
      var ys := if HasFreeLeft(l.blocks, p) then {FreeLeft(l.blocks, p)} else {};
      Unlist(Unlist(Unlist(l, {p}), xs), ys) == Unlist(l, Joined(l.blocks, p))
  {
    var xs := if IsFree(l.blocks, End(l.blocks, p)) then {End(l.blocks, p)} else {};
    var ys := if HasFreeLeft(l.blocks, p) then {FreeLeft(l.blocks, p)} else {};
    UnlistTwice(l, {p}, xs);
    UnlistTwice(l, {p} + xs, ys);
  }

  lemma RejoinedIs(l: Layout, p: int, c: int)
    requires p in l.blocks && (HasFreeLeft(l.blocks, p) || IsFree(l.blocks, End(l.blocks, p)))
    requires var bs, r := MergeAround(l.blocks, p), JoinedStart(l.blocks, p);
      r in bs && c == GetSizeClass(bs[r].size)
    ensures
      var l1 := Unlist(l, Joined(l.blocks, p)).(blocks := MergeAround(l.blocks, p));
      c < |l1.rings| && l1.RingAt(c) ==> Rejoined(l, p) == l1.Insert(JoinedStart(l.blocks, p), c)
  {
    hide GetSizeClass;
  }

  lemma ReleasedIs(l: Layout, p: int, c: int)
    requires p in l.blocks && c == GetSizeClass(l.blocks[p].size)
    ensures
      var l1 := l.(blocks := Freed(l.blocks, p));
      c < |l1.rings| && l1.RingAt(c) ==> Released(l, p) == Rejoined(l1.Insert(p, c), p)
  {
    hide GetSizeClass;
  }

  /** No block is a root. */
  lemma RootsApart(l: Layout, c: int, xs: set<int>)
    requires l.Tiled() && l.Threaded() && 0 <= c < |l.rings| && xs <= l.blocks.Keys
    ensures l.RingAt(c) && l.Root(c) !in xs
  {
    assert l.RingAt(c);
    forall x | x in xs ensures x != l.Root(c) { assert InExtent(l.blocks, x, l.First(), l.brk); }
  }

  /** List c once the free neighbours xs of the released block p are out of it. */
  lemma ReleasedRing(l: Layout, p: int, c: int, xs: set<int>)
    requires l.Tiled() && l.Threaded() && 0 <= c < |l.rings| && {p} <= xs <= l.blocks.Keys && p !in l.cls
    ensures l.RingAt(c) && |Kept(l.rings[c], xs - {p})| >= 2
    ensures Kept(l.rings[c], xs) == Kept(l.rings[c], xs - {p}) == Kept(PushFront(l.rings[c], p), xs)
  {
    RootsApart(l, c, xs);
    KeptSame(l.rings[c], xs, xs - {p});
    KeptFront(l.rings[c], p, xs);
    KeptEnds(l.rings[c], xs - {p});
  }

  lemma JoinedSize(bs: Blocks, lo: int, hi: int, p: int)
    requires Tiling(bs, lo, hi) && IsFree(bs, p) && CoalescedBut(bs, p)
    ensures
      var bs', r := MergeAround(bs, p), JoinedStart(bs, p);
      && r in bs' && bs'[r].size >= bs[p].size && Joined(bs, p) <= bs.Keys
      && (!HasFreeLeft(bs, p) && !IsFree(bs, End(bs, p)) ==> bs' == bs && r == p && Joined(bs, p) == {p})
  {
    MergeAroundCoalesces(bs, lo, hi, p);
    LeftAgrees(bs, AbsorbRight(bs, p), lo, hi, p) by { AbsorbRightCoalesces(bs, lo, hi, p); }
    if HasFreeLeft(bs, p) { assert InExtent(bs, FreeLeft(bs, p), lo, hi); }
    if IsFree(bs, End(bs, p)) { assert InExtent(bs, End(bs, p), lo, hi); }
  }

  /** Block p is listed, and leaves its list again with its neighbours if it has free ones. */
  lemma ReleasedWithout(l: Layout, p: int, c: int, js: set<int>)
    requires l.Tiled() && l.Threaded() && 0 <= c < |l.rings| && {p} <= js <= l.blocks.Keys && p !in l.cls
    ensures l.RingAt(c) && Unlist(l.Insert(p, c), js).rings == Unlist(l, js - {p}).rings
    ensures Unlist(l.Insert(p, c), js).cls == Unlist(l, js - {p}).cls
    ensures forall d :: 0 <= d < |l.rings| ==> |Unlist(l, js - {p}).rings[d]| >= 2
  {
    assert l.RingAt(c);
    forall d | 0 <= d < |l.rings|
      ensures |Kept(l.rings[d], js - {p})| >= 2 && Kept(l.Insert(p, c).rings[d], js) == Kept(l.rings[d], js - {p})
    {
      ReleasedRing(l, p, d, js);
    }
  }

  /**
   * Block p is listed by its size, then joined: the block it is now part of heads the list of
   * its size's class, its free neighbours have left their lists, and every other block is where
   * it was.
   */
  lemma RejoinedLists(l: Layout, p: int, c: int)
    requires l.Tiled() && l.Threaded() && IsFree(l.blocks, p) && CoalescedBut(l.blocks, p) && p !in l.cls
    requires c == GetSizeClass(l.blocks[p].size)
    ensures |l.rings| == SIZE_CLASS_NUM && |l.rings[c]| >= 2
    ensures
      var l' := Rejoined(l.Insert(p, c), p);
      var r, xs := JoinedStart(l.blocks, p), Joined(l.blocks, p) - {p};
      && l'.blocks == MergeAround(l.blocks, p) && r in l'.blocks && l'.base == l.base && l'.brk == l.brk
      && l'.blocks[r].size >= l.blocks[p].size
      && HeadsList(l, l', xs, r, GetSizeClass(l'.blocks[r].size))
  {
    hide GetSizeClass;
    JoinedSize(l.blocks, l.First(), l.brk, p);
    RingCount(l);
    ReleasedWithout(l, p, c, Joined(l.blocks, p));
    UnlistNone(l);
    assert l.RingAt(c);
  }

  /** The lists of l' are those of l without xs, and then r in front of list k. */
  ghost predicate HeadsList(l: Layout, l': Layout, xs: set<int>, r: int, k: int) {
    && |l'.rings| == |l.rings| == SIZE_CLASS_NUM && 0 <= k < SIZE_CLASS_NUM && |Kept(l.rings[k], xs)| >= 2
    && l'.cls == (l.cls - xs)[r := k]
    && l'.rings[k] == PushFront(Kept(l.rings[k], xs), r)
    && forall c :: 0 <= c < SIZE_CLASS_NUM && c != k ==> l'.rings[c] == Kept(l.rings[c], xs)
  }

  /** After mm_free of p the block p is now part of heads the list of its size's class. */
  lemma ReleasedLists(l: Layout, p: int)
    requires l.Tiled() && l.Threaded() && Coalesced(l.blocks) && p in l.blocks && l.blocks[p].alloc
    ensures
      var bs, l' := Freed(l.blocks, p), Released(l, p);
      var r, xs := JoinedStart(bs, p), Joined(bs, p) - {p};
      && l'.blocks == MergeAround(bs, p) && r in l'.blocks && l'.base == l.base && l'.brk == l.brk
      && l'.blocks[r].size >= l.blocks[p].size
      && HeadsList(l, l', xs, r, GetSizeClass(l'.blocks[r].size))
  {
    hide GetSizeClass, Rejoined, Kept;
    var bs, c := Freed(l.blocks, p), GetSizeClass(l.blocks[p].size);
    FreedBlocks(l, p);
    assert p in l.cls ==> l.ListedAt(p);
    forall q | q in l.cls ensures IsFree(bs, q) { assert l.ListedAt(q); }
    l.SameThreaded(bs);
    RejoinedLists(l.(blocks := bs), p, c);
    ReleasedIs(l, p, c) by { assert l.(blocks := bs).RingAt(c); }
  }

  /** The blocks after p has been released: one free block in place of p and its free neighbours. */
  ghost function Joining(bs: Blocks, p: int): Blocks
    requires p in bs
  {
    var e, left, right := End(bs, p), HasFreeLeft(bs, p), IsFree(bs, End(bs, p));
    var r := if left then FreeLeft(bs, p) else p;
    var size := bs[p].size + (if left then bs[r].size else 0) + if right then bs[e].size else 0;
    ((if right then bs - {e} else bs) - {p})[r := Block(size, false, !left && !right && bs[p].bulk)]
  }

  /** A block that touches no free one keeps its bulk tag when it is released; a joined block has none. */
  lemma ReleasedBlocks(l: Layout, p: int)
    requires l.Tiled() && Coalesced(l.blocks) && p in l.blocks && l.blocks[p].alloc
    ensures MergeAround(Freed(l.blocks, p), p) == Joining(l.blocks, p)
    ensures !HasFreeLeft(l.blocks, p) && !IsFree(l.blocks, End(l.blocks, p)) ==>
      Joining(l.blocks, p) == l.blocks[p := Block(l.blocks[p].size, false, l.blocks[p].bulk)]
  {
    var bs := Freed(l.blocks, p);
    FreedBlocks(l, p);
    AbsorbRightCoalesces(bs, l.First(), l.brk, p);
    LeftAgrees(bs, AbsorbRight(bs, p), l.First(), l.brk, p);
    assert InExtent(bs, p, l.First(), l.brk);
    if HasFreeLeft(bs, p) { assert LeftOf(l.blocks, FreeLeft(bs, p), p); }
    if HasFreeLeft(l.blocks, p) {
      assert LeftOf(bs, FreeLeft(l.blocks, p), p);
      SameEnd(bs, l.First(), l.brk, FreeLeft(l.blocks, p), FreeLeft(bs, p));
    }
    assert MergeAround(bs, p) == Joining(l.blocks, p);
  }

  /** A freed block can be found again: every request it is large enough for is then served from a list. */
  lemma ReleasedFits(l: Layout, p: int, asize: int)
    requires l.Tiled() && l.Threaded() && Coalesced(l.blocks) && p in l.blocks && l.blocks[p].alloc
    requires 0 < asize <= l.blocks[p].size
    ensures !NoneFits(Released(l, p), GetSizeClass(asize), SIZE_CLASS_NUM, asize)
  {
    hide GetSizeClass;
    ReleasedLists(l, p);
    var l', r := Released(l, p), JoinedStart(Freed(l.blocks, p), p);
    ClassesOrdered(asize, l'.blocks[r].size);
    assert r in l'.cls;
    assert NoneFits(l', GetSizeClass(asize), SIZE_CLASS_NUM, asize) ==> TooSmall(l', r, asize);
  }

  /** The layout after mm_realloc has cut p down to n bytes: the rest is listed, then joined. */
  ghost function CutDown(l: Layout, p: int, n: int): Layout
    requires p in l.blocks
  {
    var b, q := l.blocks[p], p + n;
    var bs := l.blocks[p := Block(n, true, b.bulk)][q := Block(b.size - n, false, b.bulk)];
    Rejoined(Enlist(l.(blocks := bs), q, GetSizeClass(b.size - n)), q)
  }

  // Growing the heap.

  /** The layout after extend_heap: a plain block behind the last one, joined with a free one before it. */
  ghost function PlainGrown(l: Layout, asize: int): Layout {
    var l1 := l.(blocks := l.blocks[l.brk := Block(asize, false, false)], brk := l.brk + asize);
    Rejoined(Enlist(l1, l.brk, GetSizeClass(asize)), l.brk)
  }

  ghost function PlainAt(l: Layout, asize: int): int {
    JoinedStart(l.blocks[l.brk := Block(asize, false, false)], l.brk)
  }

  /** The last block is free, and not bulk: a bulk block to come takes it in. */
  ghost predicate EndsPlain(l: Layout) {
    HasFreeLeft(l.blocks, l.brk) && !l.blocks[FreeLeft(l.blocks, l.brk)].bulk
  }

  ghost function BulkAt(l: Layout): int { if EndsPlain(l) then FreeLeft(l.blocks, l.brk) else l.brk }

  /** The layout after extend_heap_bulk: a block of eight times the size, in the list of one. */
  ghost function BulkGrown(l: Layout, asize: int): Layout {
    var p, l1 := BulkAt(l), Unlist(l, if EndsPlain(l) then {BulkAt(l)} else {});
    var b := Block(BULK_CREATE_NUM * asize + l.brk - p, false, true);
    Enlist(l1.(blocks := l.blocks[p := b], brk := l.brk + BULK_CREATE_NUM * asize), p, GetSizeClass(asize))
  }

  lemma PlainGrownIs(l: Layout, asize: int, c: int)
    requires c == GetSizeClass(asize)
    ensures
      var l1 := l.(blocks := l.blocks[l.brk := Block(asize, false, false)], brk := l.brk + asize);
      c < |l1.rings| && l1.RingAt(c) ==> PlainGrown(l, asize) == Rejoined(l1.Insert(l.brk, c), l.brk)
  {
    hide GetSizeClass, Rejoined;
  }

  /** After extend_heap the block that holds the new space heads the list of its size's class. */
  lemma PlainGrownLists(l: Layout, asize: int)
    requires l.Tiled() && l.Threaded() && Coalesced(l.blocks) && asize >= 16 && asize % 8 == 0
    ensures
      var bs, r, l' := l.blocks[l.brk := Block(asize, false, false)], PlainAt(l, asize), PlainGrown(l, asize);
      var xs := Joined(bs, l.brk) - {l.brk};
      && l'.blocks == MergeAround(bs, l.brk) && r in l'.blocks && l'.base == l.base && l'.brk == l.brk + asize
      && l'.blocks[r].size >= asize
      && HeadsList(l, l', xs, r, GetSizeClass(l'.blocks[r].size))
  {
    hide GetSizeClass, Rejoined, Kept;
    var b, c := Block(asize, false, false), GetSizeClass(asize);
    var bs := l.blocks[l.brk := b];
    GrownBlocks(l, b);
    assert l.brk in l.cls ==> l.ListedAt(l.brk);
    forall q | q in l.cls ensures IsFree(bs, q) { assert l.ListedAt(q); }
    l.SameThreaded(bs);
    var l1 := l.(blocks := bs, brk := l.brk + asize);
    assert l1.Threaded() by { BreakThreaded(l.(blocks := bs), l1.brk); }
    RejoinedLists(l1, l.brk, c);
    PlainGrownIs(l, asize, c) by { assert l1.RingAt(c); }
  }

  lemma BreakThreaded(l: Layout, hi: int)
    requires l.Threaded()
    ensures l.(brk := hi).Threaded()
  {
    var l1 := l.(brk := hi);
    forall d | 0 <= d < |l1.rings| ensures l1.RingAt(d) { assert l.RingAt(d); }
    forall q | q in l1.cls ensures l1.ListedAt(q) { assert l.ListedAt(q); }
  }

  lemma BulkGrownIs(l: Layout, asize: int, size: int, c: int)
    requires c == GetSizeClass(asize) && size == BULK_CREATE_NUM * asize + l.brk - BulkAt(l)
    ensures
      var p, u := BulkAt(l), Unlist(l, if EndsPlain(l) then {BulkAt(l)} else {});
      var l1 := u.(blocks := l.blocks[p := Block(size, false, true)], brk := l.brk + BULK_CREATE_NUM * asize);
      c < |l1.rings| && l1.RingAt(c) ==> BulkGrown(l, asize) == l1.Insert(p, c)
  {
    hide GetSizeClass, Unlist, EndsPlain, BulkAt;
  }

  /** After extend_heap_bulk the new bulk block heads the list of the class of an eighth of the growth. */
  lemma BulkGrownLists(l: Layout, asize: int)
    requires l.Tiled() && l.Threaded() && Coalesced(l.blocks) && asize >= 16
    ensures
      var p, l' := BulkAt(l), BulkGrown(l, asize);
      var takesIn := HasFreeLeft(l.blocks, l.brk) && !l.blocks[FreeLeft(l.blocks, l.brk)].bulk;
      && p == (if takesIn then FreeLeft(l.blocks, l.brk) else l.brk)
      && l'.blocks == l.blocks[p := Block(8 * asize + l.brk - p, false, true)]
      && l'.base == l.base && l'.brk == l.brk + 8 * asize
      && HeadsList(l, l', if takesIn then {p} else {}, p, GetSizeClass(asize))
  {
    hide GetSizeClass;
    RingCount(l);
    var p, k := BulkAt(l), GetSizeClass(asize);
    var xs := if EndsPlain(l) then {p} else {};
    RootsApart(l, k, xs);
    KeptEnds(l.rings[k], xs);
  }

  /** What the last footer, and the header it leads to, say about the last block. */
  lemma EndIsSeen(m: Memory, l: Layout)
    requires Holds(m, l)
    ensures
      var prev := l.brk - SizeOf(m[l.brk - 8]);
      && IsWord(l.base, l.brk, prev - 4)
      && (EndsPlain(l) <==> !IsAlloc(m[prev - 4]) && BulkBit(m[prev - 4]) == FREETAG)
      && (EndsPlain(l) ==> prev == FreeLeft(l.blocks, l.brk))
  {
    hide SizeOf, IsAlloc, BulkBit, Block.Word, IsWord, HasFreeLeft;
    ReadPrev(m, l, l.brk);
    LeftIsSeen(m, l, l.brk);
  }

  /** What mm_malloc does to the heap when the search has failed, and where the new block starts. */
  ghost function HeapGrown(l: Layout, asize: int): Layout {
    if asize <= CHUNKSIZE then BulkGrown(l, asize) else PlainGrown(l, asize)
  }

  ghost function GrownAt(l: Layout, asize: int): int {
    if asize <= CHUNKSIZE then BulkAt(l) else PlainAt(l, asize)
  }

  // Serving a request from a free block.

  /** The layout after place: in the list, split anew, or whole. */
  ghost function Placed(l: Layout, bp: int, asize: int, class_: int): Layout {
    if !(l.Threaded() && bp in l.cls && bp in l.blocks) then l
    else
      assert l.ListedAt(bp);
      var b, q := l.blocks[bp], bp + asize;
      var rest := b.size - asize;
      if rest < 16 then Unlist(l, {bp}).(blocks := l.blocks[bp := Block(b.size, true, false)])
      else if b.bulk && rest > GetLowerBound(class_) then
        l.Swap(bp, q, Block(asize, true, true), Block(rest, false, true))
      else
        var bs := l.blocks[bp := Block(asize, true, false)][q := Block(rest, false, false)];
        Enlist(Unlist(l, {bp}).(blocks := bs), q, GetSizeClass(rest))
  }

  /**
   * The rest of a bulk block stays where it was in its list, whatever its own size, and no
   * other list changes.
   */
  lemma PlacedInList(l: Layout, bp: int, asize: int, class_: int)
    requires l.Threaded() && bp in l.cls && bp in l.blocks && l.blocks[bp].bulk
    requires var rest := l.blocks[bp].size - asize; rest >= 16 && rest > GetLowerBound(class_)
    ensures
      var l', q, c := Placed(l, bp, asize, class_), bp + asize, l.cls[bp];
      && l'.blocks == l.blocks[bp := Block(asize, true, true)][q := Block(l.blocks[bp].size - asize, false, true)]
      && l'.cls == (l.cls - {bp})[q := c]
      && 0 <= c < |l.rings| && |l'.rings| == |l.rings| && Inside(l.rings[c], bp)
      && l'.rings[c] == l.rings[c][Position(l.rings[c], bp) := q]
      && forall d :: 0 <= d < |l.rings| && d != c ==> l'.rings[d] == l.rings[d]
  {
    hide GetLowerBound, GetSizeClass;
    assert l.ListedAt(bp);
  }

  /** Otherwise the block served is no bulk block, and the rest, if there is one, heads the list of its own size. */
  lemma PlacedAnew(l: Layout, bp: int, asize: int, class_: int)
    requires l.Tiled() && l.Threaded() && bp in l.cls && bp in l.blocks && asize > 0
    requires var rest := l.blocks[bp].size - asize; rest < 16 || !l.blocks[bp].bulk || rest <= GetLowerBound(class_)
    ensures
      var l', q, rest := Placed(l, bp, asize, class_), bp + asize, l.blocks[bp].size - asize;
      if rest < 16 then
        && l'.blocks == l.blocks[bp := Block(l.blocks[bp].size, true, false)]
        && l'.cls == l.cls - {bp} && |l'.rings| == |l.rings|
        && forall c :: 0 <= c < |l.rings| ==> l'.rings[c] == Kept(l.rings[c], {bp})
      else
        && l'.blocks == l.blocks[bp := Block(asize, true, false)][q := Block(rest, false, false)]
        && HeadsList(l, l', {bp}, q, GetSizeClass(rest))
  {
    hide GetLowerBound, GetSizeClass;
    RingCount(l);
    var k := GetSizeClass(l.blocks[bp].size - asize);
    RootsApart(l, k, {bp});
    KeptEnds(l.rings[k], {bp});
  }

  lemma PlacedExactly(l: Layout, bp: int, asize: int, class_: int)
    requires l.Tiled() && l.Threaded() && bp in l.cls && bp in l.blocks && asize > 0
    ensures
      var l', q, rest := Placed(l, bp, asize, class_), bp + asize, l.blocks[bp].size - asize;
      if l.blocks[bp].bulk && rest >= 16 && rest > GetLowerBound(class_) then
        && l'.blocks == l.blocks[bp := Block(asize, true, true)][q := Block(rest, false, true)]
        && l'.cls == (l.cls - {bp})[q := l.cls[bp]]
      else if rest >= 16 then
        && l'.blocks == l.blocks[bp := Block(asize, true, false)][q := Block(rest, false, false)]
        && HeadsList(l, l', {bp}, q, GetSizeClass(rest))
      else
        l'.blocks == l.blocks[bp := Block(l.blocks[bp].size, true, false)] && l'.cls == l.cls - {bp}
  {
    hide Placed, HeadsList, GetLowerBound, GetSizeClass;
    var rest := l.blocks[bp].size - asize;
    if l.blocks[bp].bulk && rest >= 16 && rest > GetLowerBound(class_) {
      PlacedInList(l, bp, asize, class_);
    } else {
      PlacedAnew(l, bp, asize, class_);
    }
  }

  /** The start of a new bulk block is in no list once the last block has left its own. */
  lemma BulkGrownThreaded(l: Layout, asize: int)
    requires l.Tiled() && l.Threaded() && asize > 0
    ensures BulkGrown(l, asize).Threaded()
    ensures BulkAt(l) !in l.cls - if EndsPlain(l) then {BulkAt(l)} else {}
  {
    hide GetSizeClass, HasFreeLeft, Kept;
    var p, k, hi := BulkAt(l), GetSizeClass(asize), l.brk + BULK_CREATE_NUM * asize;
    var b := Block(BULK_CREATE_NUM * asize + l.brk - p, false, true);
    assert p in l.cls ==> l.ListedAt(p);
    if EndsPlain(l) {
      if p in l.cls {
        RemoveIsUnlist(l, p);
        l.RemoveThreaded(p);
      } else {
        UnlistAbsent(l, p);
      }
    } else {
      UnlistNone(l);
      assert p in l.blocks ==> InExtent(l.blocks, p, l.First(), l.brk);
    }
    ListAtEnd(Unlist(l, if EndsPlain(l) then {p} else {}), p, b, hi, k);
  }

  lemma UnlistAbsent(l: Layout, p: int)
    requires l.Tiled() && l.Threaded() && p in l.blocks && p !in l.cls
    ensures Unlist(l, {p}) == l
  {
    forall c | 0 <= c < |l.rings| ensures Kept(l.rings[c], {p}) == l.rings[c] {
      RootsApart(l, c, {p});
      KeptAbsent(l.rings[c], {p});
    }
    assert Unlist(l, {p}).rings == l.rings;
    assert l.cls - {p} == l.cls;
  }

  lemma ListAtEnd(l: Layout, p: int, b: Block, hi: int, c: int)
    requires l.Threaded() && p !in l.cls && !b.alloc && 0 <= c < SIZE_CLASS_NUM
    ensures
      var l1 := l.(blocks := l.blocks[p := b], brk := hi);
      c < |l1.rings| && |l1.rings[c]| >= 2 && l1.Insert(p, c).Threaded() && Enlist(l1, p, c) == l1.Insert(p, c)
  {
    var bs := l.blocks[p := b];
    forall q | q in l.cls ensures IsFree(bs, q) { assert l.ListedAt(q); }
    l.SameThreaded(bs);
    BreakThreaded(l.(blocks := bs), hi);
    l.(blocks := bs, brk := hi).InsertThreaded(p, c);
  }

  /**
   * A small request that no list can serve: the served block and the rest are bulk blocks at
   * the end of the heap, and the rest heads the list of the request's class, not of its own.
   */
  lemma BulkServed(l: Layout, asize: int)
    requires l.Tiled() && l.Threaded() && Coalesced(l.blocks) && 16 <= asize
    ensures
      var p, l' := BulkAt(l), Placed(BulkGrown(l, asize), BulkAt(l), asize, 0);
      var b, rest := Block(asize, true, true), Block(7 * asize + l.brk - p, false, true);
      && l'.blocks == l.blocks[p := b][p + asize := rest] && l'.base == l.base && l'.brk == l.brk + 8 * asize
      && HeadsList(l, l', if EndsPlain(l) then {p} else {}, p + asize, GetSizeClass(asize))
  {
    hide GetSizeClass, HasFreeLeft, Kept, BulkGrown;
    var p, k := BulkAt(l), GetSizeClass(asize);
    var l1 := BulkGrown(l, asize);
    BulkGrownLists(l, asize);
    BulkGrownThreaded(l, asize);
    BulkStarts(l);
    assert l1.ListedAt(p) && l1.RingAt(k) && l1.rings[k][1] == p;
  }

  lemma BulkStarts(l: Layout)
    requires l.Tiled()
    ensures BulkAt(l) <= l.brk
  {
    if EndsPlain(l) { assert InExtent(l.blocks, FreeLeft(l.blocks, l.brk), l.First(), l.brk); }
  }
}
