/**
 * The shrinking branch of mm_realloc on bare memory, run for a request that does shrink: it comes
 * to a split and a coalesce, so that one list of statements serves both kinds of request.
 */
module Shrinking {
  import opened SizeClasses
  import opened Tags
  import opened Blocks
  import opened Rings
  import opened Layouts
  import opened Heaps
  import opened Coalescing
  import opened Merging
  import opened Fitting
  import opened Placing
  import opened Listings
  import opened Relisting
  import opened Payloads
  import opened Guards
  import opened Machine
  import opened Regrowing

  /** A request to cut held block p down to n bytes, with enough left over for a block. */
  ghost predicate CutRequest(m: Memory, l: Layout, p: int, n: int) {
    && Holds(m, l) && l.AllListed() && l.Classed() && Coalesced(l.blocks) && Mappable(m, l)
    && p in l.blocks && l.blocks[p].alloc && SplitRequest(l, p, n)
  }

  /** m' holds l', every invariant included. */
  ghost predicate InOrder(m': Memory, l': Layout) {
    Holds(m', l') && l'.AllListed() && l'.Classed() && Coalesced(l'.blocks)
  }

  /** The heap with both parts tagged, and the rest listed by its size. */
  ghost predicate CutListed(m: Memory, l: Layout, p: int, n: int, m3: Memory, l3: Layout) {
    && |m3| == |m| && Holds(m3, l3) && l3.AllListed() && l3.Classed() && l3.base == l.base && l3.brk == l.brk
    && p in l.blocks && p in l3.blocks && l3.blocks[p] == Block(n, true, l.blocks[p].bulk)
    && IsFree(l3.blocks, p + n) && CoalescedBut(l3.blocks, p + n)
    && Live(l3.blocks) == Live(l.blocks)[p := Block(n, true, l.blocks[p].bulk)]
    && Keeps(m, m3, Live(l3.blocks))
  }

  /** set_boundary_tag with both ends in the heap, for any tag below 4. */
  lemma TagRuns(m: Memory, l: Layout, p: int, b: Block, tag: int)
    requires 0 < l.base && l.brk <= |m| && l.brk < WORD_LIMIT && 4 <= p && b.Word() == Pack(b.size, tag)
    requires IsWord(l.base, l.brk, p - 4) && IsWord(l.base, l.brk, p + b.size - 8)
    requires b.size % 8 == 0 && 0 <= tag < 4
    ensures ImageOf(m, l).SetTag(p, b.size, tag) == Done(ImageOf(TagsSet(m, p, b), l))
  {
    hide Block.Word;
    WrapSame(p + b.size - 8);
    TagDone(ImageOf(m, l), p, b.size, tag, p + b.size - 8);
  }

  /** Both parts are tagged. */
  lemma CutTags(m: Memory, l: Layout, p: int, n: int)
    requires CutRequest(m, l, p, n)
    ensures
      var q, rest, bulk := p + n, l.blocks[p].size - n, l.blocks[p].bulk;
      && 4 <= p && 16 <= rest && q + rest <= |m| && 16 <= n
      && ImageOf(m, l).Cut(p, n)
         == ImageOf(TagsSet(TagsSet(m, p, Block(n, true, bulk)), q, Block(rest, false, bulk)), l).FreeRest(p, rest)
  {
    hide Holds, IsWord, SizeOf, IsAlloc, BulkBit, Block.Word, Wrap, Coalesced, Minus;
    hide Layout.AllListed, Layout.Classed, Image.SetTag, Image.FreeRest;
    var size, bulk := l.blocks[p].size, l.blocks[p].bulk;
    var q, rest, bit := p + n, size - n, if bulk then BULKTAG else FREETAG;
    var b, c := Block(n, true, bulk), Block(rest, false, bulk);
    ReadBlock(m, l, p);
    HeapInStorage(m, l);
    SplitAccess(m, l, p, n, bulk);
    GetDone(ImageOf(m, l), p - 4);
    MinusSame(size, n);
    TagRuns(m, l, p, b, bit + ALLOCTAG);
    var m1 := TagsSet(m, p, b);
    NextAfterCut(ImageOf(m1, l), p, n, bit);
    TagRuns(m1, l, q, c, bit);
  }

  /** The rest is listed, and is about to be joined with what is behind it. */
  lemma CutRuns(m: Memory, l: Layout, p: int, n: int) returns (m3: Memory, l3: Layout)
    requires CutRequest(m, l, p, n)
    ensures CutListed(m, l, p, n, m3, l3) && CutDown(l, p, n) == Rejoined(l3, p + n)
    ensures ImageOf(m, l).Cut(p, n) == ImageOf(m3, l).Coalesce(p + n)
  {
    hide Holds, Keeps, IsWord, SizeOf, IsAlloc, BulkBit, GetSizeClass, Block.Word, Wrap, Coalesced, CoalescedBut;
    hide Layout.AllListed, Layout.Classed, Layout.Threaded, Image.Cut, Image.Insert, Image.Coalesce;
    hide Rejoined;
    var bulk, rest, q := l.blocks[p].bulk, l.blocks[p].size - n, p + n;
    var bit := if bulk then BULKTAG else FREETAG;
    CutTags(m, l, p, n);
    ShrinkDone(m, l, p, n);
    var b, c := Block(n, true, bulk), Block(rest, false, bulk);
    var m2, l2 := TagsSet(TagsSet(m, p, b), q, c), l.(blocks := l.blocks[p := b][q := c]);
    m3, l3 := RestLinked(m2, l2, q, rest);
    KeepsTrans(m, m2, m3, Live(l2.blocks), Live(l2.blocks));
    HeadReads(m2, l2, p, n, bit);
    HeadReads(m3, l3, p, n, bit);
  }

  lemma RestLinked(m: Memory, l: Layout, q: int, rest: int) returns (m': Memory, l': Layout)
    requires Holds(m, l) && Mappable(m, l) && IsFree(l.blocks, q) && q !in l.cls
    requires var k := GetSizeClass(rest);
      l.RingAt(k) && l.Insert(q, k).AllListed() && l.Insert(q, k).Classed()
    ensures Holds(m', l') && l'.AllListed() && l'.Classed()
    ensures l.RingAt(GetSizeClass(rest)) && l' == l.Insert(q, GetSizeClass(rest)) == Enlist(l, q, GetSizeClass(rest))
    ensures |m'| == |m| && Keeps(m, m', Live(l.blocks)) && ImageOf(m, l).Insert(q, rest) == Done(ImageOf(m', l))
  {
    hide Holds, Keeps, IsWord, GetSizeClass, Image.Insert;
    var k := GetSizeClass(rest);
    InsertAccess(m, l, q, k);
    RingCount(l) by { HoldsTiled(m, l); }
    HeapInStorage(m, l);
    InsertHolds(m, l, q, k);
    InsertDone(ImageOf(m, l), q, rest);
    m', l' := Inserted(m, l.Root(k), q), l.Insert(q, k);
  }

  /** The cut block's header leads to the rest. */
  lemma HeadReads(m: Memory, l: Layout, p: int, n: int, bit: int)
    requires Holds(m, l) && Mappable(m, l) && p in l.blocks && l.blocks[p].alloc && l.blocks[p].size == n
    requires bit == if l.blocks[p].bulk then BULKTAG else FREETAG
    ensures ImageOf(m, l).NextOf(p) == Done(p + n)
  {
    hide Holds, IsWord, SizeOf, IsAlloc, BulkBit, Image.NextOf;
    ReadBlock(m, l, p);
    HeapInStorage(m, l);
    NextAfterCut(ImageOf(m, l), p, n, bit);
  }

  lemma MinusSame(a: int, b: int)
    requires 0 <= b <= a < WORD_LIMIT
    ensures Minus(a, b) == a - b
  {
  }

  /** remove_from_list takes a listed block out. */
  lemma Unlists(m: Memory, l: Layout, p: int) returns (m': Memory, l': Layout)
    requires Holds(m, l) && Mappable(m, l) && p in l.cls
    ensures Holds(m', l') && Unlisted(l, l', {p}) && l' == Unlist(l, {p}) && Keeps(m, m', Live(l.blocks)) && |m'| == |m|
    ensures ImageOf(m, l).Remove(p) == Done(ImageOf(m', l))
  {
    hide Holds, Keeps, IsWord, Image.Remove;
    RemoveAccess(m, l, p);
    HeapInStorage(m, l);
    RemoveHolds(m, l, p);
    RemoveDone(ImageOf(m, l), p);
    RemoveIsUnlist(l, p) by { HoldsTiled(m, l); }
    m', l' := Removed(m, m[p + 4], m[p]), l.Remove(p);
  }

  /** What coalesce reads around p tells whether its neighbours are free. */
  lemma Sees(m: Memory, l: Layout, p: int)
    requires Holds(m, l) && Mappable(m, l) && p in l.blocks
    ensures
      var i := ImageOf(m, l);
      && i.SizeAt(p - 4) == Done(l.blocks[p].size) && i.NextOf(p) == Done(End(l.blocks, p))
      && i.TagBefore(p).Done? && (IsAlloc(i.TagBefore(p).value) <==> !HasFreeLeft(l.blocks, p))
      && i.TagBehind(p).Done? && (IsAlloc(i.TagBehind(p).value) <==> !IsFree(l.blocks, End(l.blocks, p)))
      && (HasFreeLeft(l.blocks, p) ==> i.PrevOf(p) == Done(FreeLeft(l.blocks, p)))
  {
    hide Holds, IsWord, SizeOf, IsAlloc, BulkBit, HasFreeLeft, Block.Word, Wrap;
    var i, e := ImageOf(m, l), End(l.blocks, p);
    ReadBlock(m, l, p);
    HeapInStorage(m, l);
    ReadNext(m, l, p);
    ReadPrev(m, l, p);
    LeftIsSeen(m, l, p);
    SizeDone(i, p - 4);
    WrapSame(e);
    GetDone(i, e - 4);
    SizeDone(i, p - 8);
    var q := p - SizeOf(m[p - 8]);
    WrapSame(q);
    SizeDone(i, q - 4);
    GetDone(i, p - 8);
  }

  /** The step of coalesce for the next block. */
  lemma TakesNext(m: Memory, l: Layout, p: int, size: int) returns (m': Memory, l': Layout, size': int)
    requires Holds(m, l) && Mappable(m, l) && p in l.blocks && 0 <= size <= l.blocks[p].size
    requires IsFree(l.blocks, End(l.blocks, p)) ==> End(l.blocks, p) in l.cls
    ensures
      var e, nextAlloc := End(l.blocks, p), !IsFree(l.blocks, End(l.blocks, p));
      && Holds(m', l') && Unlisted(l, l', if nextAlloc then {} else {e}) && Keeps(m, m', Live(l.blocks))
      && l' == Unlist(l, if nextAlloc then {} else {e})
      && |m'| == |m| && size' == size + (if nextAlloc then 0 else l.blocks[e].size)
      && ImageOf(m, l).TakeNext(p, size, nextAlloc) == Done((ImageOf(m', l), size'))
  {
    hide Holds, Keeps, IsWord, SizeOf, IsAlloc, BulkBit, HasFreeLeft, Wrap, Image.NextOf, Image.Remove, Image.SizeAt;
    m', l', size' := m, l, size;
    KeepsSame(m, Live(l.blocks));
    UnlistNone(l);
    var e := End(l.blocks, p);
    if IsFree(l.blocks, e) {
      Sees(m, l, p);
      ReadBlock(m, l, p);
      HeapInStorage(m, l);
      ReadBlock(m, l, e);
      SizeDone(ImageOf(m, l), e - 4);
      WrapSame(size + l.blocks[e].size);
      m', l' := Unlists(m, l, e);
      size' := size + l.blocks[e].size;
    }
  }

  /** The step of coalesce for the previous block. */
  lemma TakesPrev(m: Memory, l: Layout, p: int, size: int) returns (m': Memory, l': Layout, size': int)
    requires Holds(m, l) && Mappable(m, l) && p in l.blocks && 0 <= size && p + size <= l.brk
    requires HasFreeLeft(l.blocks, p) ==> FreeLeft(l.blocks, p) in l.cls
    ensures
      var r, prevAlloc := JoinedStart(l.blocks, p), !HasFreeLeft(l.blocks, p);
      && Holds(m', l') && Unlisted(l, l', if prevAlloc then {} else {r}) && Keeps(m, m', Live(l.blocks))
      && l' == Unlist(l, if prevAlloc then {} else {r})
      && |m'| == |m| && r in l.blocks && size' == size + (if prevAlloc then 0 else l.blocks[r].size)
      && ImageOf(m, l).TakePrev(p, size, prevAlloc) == ImageOf(m', l).Settle(r, size')
  {
    hide Holds, Keeps, IsWord, SizeOf, IsAlloc, BulkBit, HasFreeLeft, Wrap, Image.PrevOf, Image.Remove, Image.SizeAt;
    hide Image.Settle;
    m', l', size' := m, l, size;
    KeepsSame(m, Live(l.blocks));
    UnlistNone(l);
    if HasFreeLeft(l.blocks, p) {
      var r := FreeLeft(l.blocks, p);
      Sees(m, l, p);
      m', l' := Unlists(m, l, r);
      ReadBlock(m', l', r);
      HeapInStorage(m', l');
      SizeDone(ImageOf(m', l), r - 4);
      size' := size + l.blocks[r].size;
      ReadBlock(m, l, p);
      HeapInStorage(m, l);
      WrapSame(size');
    }
  }

  /** coalesce on bare memory joins a free block with its free neighbours, and restores every invariant. */
  lemma CoalesceRuns(m: Memory, l: Layout, p: int) returns (m': Memory, l': Layout)
    requires Holds(m, l) && l.AllListed() && l.Classed() && Mappable(m, l)
    requires IsFree(l.blocks, p) && CoalescedBut(l.blocks, p)
    ensures ImageOf(m, l).Coalesce(p) == Done(ImageOf(m', l)) && InOrder(m', l')
    ensures l'.blocks == MergeAround(l.blocks, p) && l'.base == l.base && l'.brk == l.brk && l' == Rejoined(l, p)
    ensures Live(l'.blocks) == Live(l.blocks) && Keeps(m, m', Live(l.blocks))
  {
    hide Holds, Keeps, IsWord, SizeOf, IsAlloc, BulkBit, HasFreeLeft, Wrap, CoalescedBut, MergeAround, Layout.Classed;
    hide Layout.Tiled, Image.NextOf, Image.Remove, Image.SizeAt, Image.TagBefore, Image.TagBehind, Image.TakeNext;
    hide Image.TakePrev, Image.Settle, Coalesced;
    HoldsTiled(m, l);
    JoinedParts(l, p);
    Sees(m, l, p);
    KeepsSame(m, Live(l.blocks));
    m', l' := m, l;
    if HasFreeLeft(l.blocks, p) || IsFree(l.blocks, End(l.blocks, p)) {
      var size;
      m', l', size := JoinRuns(m, l, p);
    }
  }

  /** The block and its free neighbours leave their lists. */
  lemma GatherRuns(m: Memory, l: Layout, p: int) returns (m': Memory, l': Layout, size: int)
    requires Holds(m, l) && l.AllListed() && Mappable(m, l)
    requires IsFree(l.blocks, p) && CoalescedBut(l.blocks, p)
    ensures Holds(m', l') && Unlisted(l, l', Joined(l.blocks, p)) && l' == Unlist(l, Joined(l.blocks, p))
    ensures |m'| == |m| && Keeps(m, m', Live(l.blocks)) && ImageOf(m, l).Remove(p).Done?
    ensures
      var r := JoinedStart(l.blocks, p);
      && r in MergeAround(l.blocks, p) && size == MergeAround(l.blocks, p)[r].size
      && ImageOf(m, l).Remove(p).value
           .Join(p, l.blocks[p].size, !HasFreeLeft(l.blocks, p), !IsFree(l.blocks, End(l.blocks, p)))
         == ImageOf(m', l).Settle(r, size)
  {
    hide Holds, Keeps, IsWord, SizeOf, HasFreeLeft, CoalescedBut, MergeAround, Image.Remove, Image.TakeNext;
    hide Image.TakePrev, Image.Settle, GetSizeClass, Layout.Tiled, Layout.Threaded, Unlist, Layout.AllListed;
    HoldsTiled(m, l);
    JoinedParts(l, p);
    ReadBlock(m, l, p);
    HeapInStorage(m, l);
    if IsFree(l.blocks, End(l.blocks, p)) { ReadBlock(m, l, End(l.blocks, p)); }
    var m1, l1 := Unlists(m, l, p);
    var m2, l2, size2 := TakesNext(m1, l1, p, l.blocks[p].size);
    KeepsTrans(m, m1, m2, Live(l.blocks), Live(l.blocks));
    m', l', size := TakesPrev(m2, l2, p, size2);
    KeepsTrans(m, m2, m', Live(l.blocks), Live(l.blocks));
    GatheredUnlist(l, p);
  }

  lemma JoinRuns(m: Memory, l: Layout, p: int) returns (m': Memory, l': Layout, size: int)
    requires Holds(m, l) && l.AllListed() && l.Classed() && Mappable(m, l)
    requires IsFree(l.blocks, p) && CoalescedBut(l.blocks, p)
    requires HasFreeLeft(l.blocks, p) || IsFree(l.blocks, End(l.blocks, p))
    ensures InOrder(m', l')
    ensures l'.blocks == MergeAround(l.blocks, p) && l'.base == l.base && l'.brk == l.brk && l' == Rejoined(l, p)
    ensures Keeps(m, m', Live(l.blocks)) && ImageOf(m, l).Remove(p).Done?
    ensures
      ImageOf(m, l).Remove(p).value
        .Join(p, l.blocks[p].size, !HasFreeLeft(l.blocks, p), !IsFree(l.blocks, End(l.blocks, p)))
      == Done(ImageOf(m', l))
  {
    hide Holds, Keeps, IsWord, SizeOf, HasFreeLeft, CoalescedBut, MergeAround, Image.Remove, Image.Join;
    hide Image.Settle, GetSizeClass, Layout.Tiled, Layout.Threaded, Layout.Classed, Coalesced;
    hide Rejoined, Unlist, Block.Word, Layout.AllListed;
    HoldsTiled(m, l);
    JoinedParts(l, p);
    var m3, l3;
    m3, l3, size := GatherRuns(m, l, p);
    var bs, r, k := MergeAround(l.blocks, p), JoinedStart(l.blocks, p), GetSizeClass(size);
    MergeReady(m, l, m3, l3, p);
    HoldsTiled(m3, l3);
    MergeSettles(l, l3, p, k);
    RingCount(l3);
    RejoinedIs(l, p, k);
    SettleDone(m3, TagsSet(m3, r, bs[r]), l3.(blocks := bs), r, size);
    l' := l3.(blocks := bs).Insert(r, k);
    m' := Inserted(TagsSet(m3, r, bs[r]), l3.Root(k), r);
    KeepsTrans(m, TagsSet(m3, r, bs[r]), m', Live(l.blocks), Live(l.blocks));
  }

  /**
   * A shrinking request is served by the branch as it is: the block keeps its address, bulk tag
   * and first bytes, and what is left over is free, joined with a free block behind it.
   */
  lemma CutShrinks(m: Memory, l: Layout, p: int, n: int) returns (m': Memory, l': Layout)
    requires CutRequest(m, l, p, n)
    ensures ImageOf(m, l).Cut(p, n) == Done(ImageOf(m', l)) && InOrder(m', l')
    ensures l' == CutDown(l, p, n) && l'.base == l.base && l'.brk == l.brk
    ensures Live(l'.blocks) == Live(l.blocks)[p := Block(n, true, l.blocks[p].bulk)]
    ensures Keeps(m, m', Live(l'.blocks))
  {
    hide Holds, Keeps, CoalescedBut, MergeAround, Image.Cut, Image.Coalesce, Coalesced, Layout.AllListed;
    hide Layout.Classed, Rejoined, CutDown;
    var m3, l3 := CutRuns(m, l, p, n);
    m', l' := CoalesceRuns(m3, l3, p + n);
    KeepsTrans(m, m3, m', Live(l3.blocks), Live(l3.blocks));
  }

  /** Behind a held block p, block q is joined with what is behind it alone. */
  lemma JoinedRight(l: Layout, p: int, q: int)
    requires l.Tiled() && p in l.blocks && l.blocks[p].alloc && End(l.blocks, p) == q
    requires IsFree(l.blocks, q) && CoalescedBut(l.blocks, q)
    ensures
      var e, bs := End(l.blocks, q), MergeAround(l.blocks, q);
      && JoinedStart(l.blocks, q) == q && Joined(l.blocks, q) - {q} == (if IsFree(l.blocks, e) then {e} else {})
      && IsFree(bs, q) && bs[q].size == l.blocks[q].size + if IsFree(l.blocks, e) then l.blocks[e].size else 0
  {
    if HasFreeLeft(l.blocks, q) { SameEnd(l.blocks, l.First(), l.brk, p, FreeLeft(l.blocks, q)); }
    AbsorbRightCoalesces(l.blocks, l.First(), l.brk, q);
    LeftAgrees(l.blocks, AbsorbRight(l.blocks, q), l.First(), l.brk, q);
    assert InExtent(l.blocks, q, l.First(), l.brk);
  }

  /** What is left over, with a free block behind it, heads the list of its size's class. */
  lemma CutLists(m: Memory, l: Layout, p: int, n: int)
    requires CutRequest(m, l, p, n)
    ensures
      var q, e, l' := p + n, End(l.blocks, p), CutDown(l, p, n);
      var size := l.blocks[p].size - n + if IsFree(l.blocks, e) then l.blocks[e].size else 0;
      && q in l'.blocks && !l'.blocks[q].alloc && l'.blocks[q].size == size
      && HeadsList(l, l', if IsFree(l.blocks, e) then {e} else {}, q, GetSizeClass(size))
  {
    hide Holds, Keeps, IsWord, GetSizeClass, Block.Word, Coalesced, CoalescedBut, Layout.AllListed, Layout.Classed;
    hide Layout.Threaded, Layout.Tiled, Rejoined, Kept, MergeAround;
    var bulk, rest, q := l.blocks[p].bulk, l.blocks[p].size - n, p + n;
    var b, c := Block(n, true, bulk), Block(rest, false, bulk);
    var bs := l.blocks[p := b][q := c];
    ShrinkDone(m, l, p, n);
    ReadBlock(m, l, p);
    var m2 := TagsSet(TagsSet(m, p, b), q, c);
    HoldsTiled(m2, l.(blocks := bs));
    RejoinedLists(l.(blocks := bs), q, GetSizeClass(rest));
    JoinedRight(l.(blocks := bs), p, q);
  }
}
