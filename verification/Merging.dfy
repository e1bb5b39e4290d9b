/** Coalescing at the level of memories and layouts. */
module Merging {
  import opened SizeClasses
  import opened Tags
  import opened Blocks
  import opened Rings
  import opened Layouts
  import opened Heaps
  import opened Coalescing

  /** The blocks that coalescing around p joins, p among them. */
  ghost function Joined(bs: Blocks, p: int): set<int>
    requires p in bs
  {
    {p} + (if IsFree(bs, End(bs, p)) then {End(bs, p)} else {})
    + (if HasFreeLeft(bs, p) then {FreeLeft(bs, p)} else {})
  }

  ghost function JoinedStart(bs: Blocks, p: int): int {
    if HasFreeLeft(bs, p) then FreeLeft(bs, p) else p
  }

  /** Layout l1 is l with the blocks xs taken out of their lists. */
  ghost predicate Unlisted(l: Layout, l1: Layout, xs: set<int>) {
    && l1.blocks == l.blocks && l1.base == l.base && l1.brk == l.brk
    && (forall q :: q in l1.cls <==> q in l.cls && q !in xs)
    && (forall q :: q in l1.cls ==> l1.cls[q] == l.cls[q])
  }

  /** Tagging the joined block, once its parts are out of their lists. */
  lemma MergeHolds(m: Memory, l: Layout, l1: Layout, p: int)
    requires l.Tiled() && IsFree(l.blocks, p) && CoalescedBut(l.blocks, p)
    requires Unlisted(l, l1, Joined(l.blocks, p)) && Holds(m, l1)
    ensures
      var bs, r := MergeAround(l.blocks, p), JoinedStart(l.blocks, p);
      && r in bs && r !in l1.cls && 4 <= r && r + bs[r].size <= |m| && bs[r].size >= 16
      && Holds(TagsSet(m, r, bs[r]), l1.(blocks := bs))
      && Keeps(m, TagsSet(m, r, bs[r]), Live(l.blocks))
  {
    hide Block.Word, Pack;
    var bs, r := MergeAround(l.blocks, p), JoinedStart(l.blocks, p);
    MergeAroundCoalesces(l.blocks, l.First(), l.brk, p);
    forall q | q in l1.cls ensures IsFree(bs, q) {
      assert l1.ListedAt(q);
    }
    RetagHolds(m, l1, bs, r);
    KeepsSub(m, TagsSet(m, r, bs[r]), bs, Live(l.blocks));
  }

  /** Listing the joined block by its size restores the list invariants. */
  lemma MergeSettles(l: Layout, l1: Layout, p: int, c: int)
    requires l.Tiled() && l.AllListed() && l.Classed() && l1.Threaded()
    requires IsFree(l.blocks, p) && CoalescedBut(l.blocks, p)
    requires Unlisted(l, l1, Joined(l.blocks, p)) && l.brk - l.First() <= 0x7fffffff
    requires
      var bs, r := MergeAround(l.blocks, p), JoinedStart(l.blocks, p);
      r in bs && c == GetSizeClass(bs[r].size)
    ensures
      var l2 := l1.(blocks := MergeAround(l.blocks, p));
      && l2.RingAt(c)
      && l2.Insert(JoinedStart(l.blocks, p), c).AllListed()
      && l2.Insert(JoinedStart(l.blocks, p), c).Classed()
  {
    hide GetSizeClass, GetLowerBound;
    var bs, r := MergeAround(l.blocks, p), JoinedStart(l.blocks, p);
    MergeAroundCoalesces(l.blocks, l.First(), l.brk, p);
    assert l1.RingAt(c);
    var l2 := l1.(blocks := bs);
    assert l2.RingAt(c);
    var l3 := l2.Insert(r, c);
    assert InExtent(bs, r, l.First(), l.brk);
    ClassInterval(bs[r].size, c);
    forall q | IsFree(bs, q) ensures q in l3.cls {
      if q != r { assert IsFree(l.blocks, q); }
    }
    forall q | q in l3.cls && q in bs ensures l3.FitsAt(q) {
      if q != r { assert l.FitsAt(q); }
    }
  }

  /** What the words around p say about its neighbours. */
  ghost predicate SeesLeft(m: Memory, l: Layout, p: int)
    requires 0 <= p - 8 < |m|
  {
    && (HasFreeLeft(l.blocks, p) <==> !IsAlloc(m[p - 8]))
    && (HasFreeLeft(l.blocks, p) ==> FreeLeft(l.blocks, p) == p - SizeOf(m[p - 8]))
  }

  lemma LeftIsSeen(m: Memory, l: Layout, p: int)
    requires Holds(m, l) && (p in l.blocks || p == l.brk)
    ensures 0 <= p - 8 < |m| && SeesLeft(m, l, p)
  {
    hide SizeOf, IsAlloc, IsWord, Describes, Layout.Threaded;
    ReadPrev(m, l, p);
    var q := p - SizeOf(m[p - 8]);
    if HasFreeLeft(l.blocks, p) {
      var r := FreeLeft(l.blocks, p);
      assert InExtent(l.blocks, r, l.First(), l.brk);
      SameEnd(l.blocks, l.First(), l.brk, q, r);
    }
    assert LeftOf(l.blocks, q, p) == (q in l.blocks);
  }

  /** What the joined block looks like, and that its parts can be taken out of their lists. */
  lemma JoinedParts(l: Layout, p: int)
    requires l.Tiled() && l.AllListed() && IsFree(l.blocks, p) && CoalescedBut(l.blocks, p)
    ensures forall q :: q in Joined(l.blocks, p) ==> IsFree(l.blocks, q) && q in l.cls
    ensures
      var bs, r, e := MergeAround(l.blocks, p), JoinedStart(l.blocks, p), End(l.blocks, p);
      && r in bs && e != p && r != e && (HasFreeLeft(l.blocks, p) ==> r != p)
      && bs[r].size == l.blocks[p].size + (if IsFree(l.blocks, e) then l.blocks[e].size else 0)
                       + (if HasFreeLeft(l.blocks, p) then l.blocks[r].size else 0)
      && (IsFree(l.blocks, e) || HasFreeLeft(l.blocks, p) ==> bs[r] == Block(bs[r].size, false, false))
      && (!IsFree(l.blocks, e) && !HasFreeLeft(l.blocks, p) ==> bs == l.blocks)
      && Live(bs) == Live(l.blocks) && Coalesced(bs)
  {
    MergeAroundCoalesces(l.blocks, l.First(), l.brk, p);
    assert InExtent(l.blocks, p, l.First(), l.brk);
    if HasFreeLeft(l.blocks, p) {
      assert InExtent(l.blocks, FreeLeft(l.blocks, p), l.First(), l.brk);
    }
    LeftAgrees(l.blocks, AbsorbRight(l.blocks, p), l.First(), l.brk, p) by {
      AbsorbRightCoalesces(l.blocks, l.First(), l.brk, p);
    }
  }

  /** The headers of p and of its right neighbour survive inside the block that absorbs them. */
  ghost predicate LeavesHeaders(m: Memory, m': Memory, bs: Blocks, p: int)
    requires p in bs
  {
    && |m| == |m'|
    && (HasFreeLeft(bs, p) && 0 <= p - 4 < |m| ==> m'[p - 4] == m[p - 4])
    && (IsFree(bs, End(bs, p)) && 0 <= End(bs, p) - 4 < |m| ==> m'[End(bs, p) - 4] == m[End(bs, p) - 4])
  }

  lemma MergeLeavesHeaders(m: Memory, l: Layout, m3: Memory, l3: Layout, p: int, m5: Memory)
    requires Holds(m, l) && IsFree(l.blocks, p) && CoalescedBut(l.blocks, p)
    requires Holds(m3, l3) && Unlisted(l, l3, Joined(l.blocks, p)) && |m3| == |m|
    requires
      var bs, r := MergeAround(l.blocks, p), JoinedStart(l.blocks, p);
      && r in bs && 4 <= r && r + bs[r].size <= |m| && bs[r].size >= 16
      && SameWords(TagsSet(m3, r, bs[r]), m5, r + 8, End(bs, r) - 8)
    ensures LeavesHeaders(m, m5, l.blocks, p)
  {
    hide Block.Word, Pack;
    var e, r := End(l.blocks, p), JoinedStart(l.blocks, p);
    MergeAroundCoalesces(l.blocks, l.First(), l.brk, p);
    assert TagAt(m, l.blocks, p) && TagAt(m3, l.blocks, p) && InExtent(l.blocks, p, l.First(), l.brk);
    if IsFree(l.blocks, e) {
      assert TagAt(m, l.blocks, e) && TagAt(m3, l.blocks, e) && InExtent(l.blocks, e, l.First(), l.brk);
    }
    if HasFreeLeft(l.blocks, p) {
      assert InExtent(l.blocks, r, l.First(), l.brk);
    }
  }

  /** Everything Coalesce needs to tag and list the joined block. */
  lemma MergeReady(m: Memory, l: Layout, m3: Memory, l3: Layout, p: int)
    requires Holds(m, l) && l.AllListed() && IsFree(l.blocks, p) && CoalescedBut(l.blocks, p)
    requires HasFreeLeft(l.blocks, p) || IsFree(l.blocks, End(l.blocks, p))
    requires Unlisted(l, l3, Joined(l.blocks, p)) && Holds(m3, l3)
    requires Keeps(m, m3, Live(l.blocks))
    ensures
      var bs, r := MergeAround(l.blocks, p), JoinedStart(l.blocks, p);
      && r in bs && r !in l3.cls && IsFree(bs, r) && Live(bs) == Live(l.blocks)
      && var size := bs[r].size;
      && 4 <= r && r + size <= |m3| && size >= 16 && size % 8 == 0
      && IsWord(l.base, l.brk, r - 4) && IsWord(l.base, l.brk, r + size - 8)
      && bs[r].Word() == Pack(size, FREETAG)
      && Holds(TagsSet(m3, r, bs[r]), l3.(blocks := bs))
      && Keeps(m, TagsSet(m3, r, bs[r]), Live(l.blocks))
  {
    hide IsWord;
    var bs, r := MergeAround(l.blocks, p), JoinedStart(l.blocks, p);
    JoinedParts(l, p);
    MergeHolds(m3, l, l3, p);
    ReadBlock(TagsSet(m3, r, bs[r]), l3.(blocks := bs), r);
    WordOf(bs[r].size, false, false);
    KeepsTrans(m, m3, TagsSet(m3, r, bs[r]), Live(l.blocks), Live(l.blocks));
  }
}
