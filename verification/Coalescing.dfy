/** Merging free neighbours: what coalescing does to the blocks, and why it restores order. */
module Coalescing {
  import opened Blocks

  /** p swallows its right neighbour. */
  ghost function Absorb(bs: Blocks, p: int): Blocks
    requires p in bs && End(bs, p) in bs
  {
    (bs - {End(bs, p)})[p := Block(bs[p].size + bs[End(bs, p)].size, false, false)]
  }

  ghost predicate LeftOf(bs: Blocks, q: int, p: int) { q in bs && End(bs, q) == p }

  ghost predicate HasFreeLeft(bs: Blocks, p: int) {
    exists q :: LeftOf(bs, q, p) && !bs[q].alloc
  }

  ghost function FreeLeft(bs: Blocks, p: int): (q: int)
    requires HasFreeLeft(bs, p)
    ensures LeftOf(bs, q, p) && !bs[q].alloc
  {
    var q :| LeftOf(bs, q, p) && !bs[q].alloc; q
  }

  ghost function AbsorbRight(bs: Blocks, p: int): Blocks
    requires p in bs
  {
    if IsFree(bs, End(bs, p)) then Absorb(bs, p) else bs
  }

  /** Block p joined with the free blocks on both sides of it. */
  ghost function MergeAround(bs: Blocks, p: int): Blocks
    requires p in bs
  {
    var bs1 := AbsorbRight(bs, p);
    if HasFreeLeft(bs1, p) then Absorb(bs1, FreeLeft(bs1, p)) else bs1
  }

  /** Only p may touch free neighbours. */
  ghost predicate CoalescedBut(bs: Blocks, p: int) {
    forall q {:trigger End(bs, q)} :: IsFree(bs, q) && q != p && End(bs, q) != p ==> !IsFree(bs, End(bs, q))
  }

  lemma AbsorbLive(bs: Blocks, p: int)
    requires IsFree(bs, p) && IsFree(bs, End(bs, p))
    ensures Live(Absorb(bs, p)) == Live(bs)
  {
  }

  lemma AbsorbTiling(bs: Blocks, lo: int, hi: int, p: int)
    requires Tiling(bs, lo, hi) && p in bs && End(bs, p) in bs
    ensures Tiling(Absorb(bs, p), lo, hi)
    ensures End(bs, p) > p
  {
    assert InExtent(bs, p, lo, hi);
    MergeTiling(bs, lo, hi, p, Block(bs[p].size + bs[End(bs, p)].size, false, false), Absorb(bs, p));
  }

  /** Joining p with its right neighbour leaves only the left of p to be joined. */
  lemma AbsorbRightCoalesces(bs: Blocks, lo: int, hi: int, p: int)
    requires Tiling(bs, lo, hi) && IsFree(bs, p) && CoalescedBut(bs, p)
    ensures
      var bs1 := AbsorbRight(bs, p);
      && Tiling(bs1, lo, hi) && IsFree(bs1, p) && Live(bs1) == Live(bs)
      && !IsFree(bs1, End(bs1, p))
      && End(bs1, p) == (if IsFree(bs, End(bs, p)) then End(bs, End(bs, p)) else End(bs, p))
      && (forall q :: q in bs1 && q != p ==> q in bs && bs1[q] == bs[q])
      && (forall q :: q in bs && q != p && q != End(bs, p) ==> q in bs1)
      && CoalescedBut(bs1, p)
  {
    var e := End(bs, p);
    var bs1 := AbsorbRight(bs, p);
    if IsFree(bs, e) {
      AbsorbTiling(bs, lo, hi, p);
      AbsorbLive(bs, p);
      var f := End(bs, e);
      assert End(bs1, p) == f;
      assert InExtent(bs, e, lo, hi);
      assert !IsFree(bs, f);
      forall q | IsFree(bs1, q) && q != p && End(bs1, q) != p ensures !IsFree(bs1, End(bs1, q)) {
        assert End(bs, q) == End(bs1, q);
      }
    }
  }

  lemma MergeAroundCoalesces(bs: Blocks, lo: int, hi: int, p: int)
    requires Tiling(bs, lo, hi) && IsFree(bs, p) && CoalescedBut(bs, p)
    ensures
      var bs2 := MergeAround(bs, p);
      var r := if HasFreeLeft(bs, p) then FreeLeft(bs, p) else p;
      && Tiling(bs2, lo, hi) && IsFree(bs2, r) && Live(bs2) == Live(bs) && Coalesced(bs2)
      && End(bs2, r) == (if IsFree(bs, End(bs, p)) then End(bs, End(bs, p)) else End(bs, p))
      && (forall q :: q in bs2 && q != r ==> q in bs && q != p && bs2[q] == bs[q])
      && (forall q :: q in bs && q != r && q != p && q != End(bs, p) ==> q in bs2)
  {
    AbsorbRightCoalesces(bs, lo, hi, p);
    var bs1 := AbsorbRight(bs, p);
    var bs2 := MergeAround(bs, p);
    LeftAgrees(bs, bs1, lo, hi, p);
    if HasFreeLeft(bs, p) {
      var r := FreeLeft(bs, p);
      assert InExtent(bs, r, lo, hi);
      assert InExtent(bs, p, lo, hi);
      assert End(bs1, r) == p;
      AbsorbTiling(bs1, lo, hi, r);
      AbsorbLive(bs1, r);
      assert End(bs2, r) == End(bs1, p);
      forall q | IsFree(bs2, q) ensures !IsFree(bs2, End(bs2, q)) {
        MergeNoTouch(bs, bs1, lo, hi, p, r, q);
      }
    } else {
      forall q | IsFree(bs1, q) ensures !IsFree(bs1, End(bs1, q)) {
        assert LeftOf(bs1, q, p) == (End(bs1, q) == p);
      }
    }
  }

  /** Joining to the right does not change what is on the left. */
  lemma LeftAgrees(bs: Blocks, bs1: Blocks, lo: int, hi: int, p: int)
    requires Tiling(bs, lo, hi) && IsFree(bs, p) && bs1 == AbsorbRight(bs, p)
    requires Tiling(bs1, lo, hi)
    ensures HasFreeLeft(bs, p) <==> HasFreeLeft(bs1, p)
    ensures HasFreeLeft(bs, p) ==> FreeLeft(bs, p) == FreeLeft(bs1, p)
  {
    if HasFreeLeft(bs1, p) {
      var r := FreeLeft(bs1, p);
      assert InExtent(bs1, r, lo, hi);
      assert LeftOf(bs, r, p);
    }
    if HasFreeLeft(bs, p) {
      var r := FreeLeft(bs, p);
      assert InExtent(bs, r, lo, hi) && InExtent(bs, p, lo, hi);
      assert LeftOf(bs1, r, p);
      SameEnd(bs1, lo, hi, r, FreeLeft(bs1, p));
    }
  }

  lemma MergeNoTouch(bs: Blocks, bs1: Blocks, lo: int, hi: int, p: int, r: int, q: int)
    requires Tiling(bs, lo, hi) && IsFree(bs, p) && CoalescedBut(bs, p)
    requires Tiling(bs1, lo, hi) && CoalescedBut(bs1, p)
    requires IsFree(bs, r) && End(bs, r) == p && r != p
    requires IsFree(bs1, r) && End(bs1, r) == p && IsFree(bs1, p) && !IsFree(bs1, End(bs1, p))
    requires forall s :: s in bs1 && s != p ==> s in bs && bs1[s] == bs[s]
    requires IsFree(Absorb(bs1, r), q)
    ensures !IsFree(Absorb(bs1, r), End(Absorb(bs1, r), q))
  {
    var bs2 := Absorb(bs1, r);
    if q == r {
      assert End(bs2, r) == End(bs1, p);
    } else {
      assert End(bs2, q) == End(bs1, q);
      if End(bs1, q) == p {
        SameEnd(bs1, lo, hi, q, r);
      }
    }
  }
}
