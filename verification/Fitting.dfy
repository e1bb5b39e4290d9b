/** Searching the lists for a block. */
module Fitting {
  import opened SizeClasses
  import opened Tags
  import opened Blocks
  import opened Rings
  import opened Layouts
  import opened Heaps

  ghost predicate TooSmall(l: Layout, p: int, asize: int) { p in l.blocks ==> l.blocks[p].size < asize }

  /** The first k - 1 blocks of list c are too small. */
  ghost predicate PrefixTooSmall(l: Layout, c: int, k: int, asize: int)
    requires 0 <= c < |l.rings|
  {
    forall i {:trigger l.rings[c][i]} :: 0 < i < k && i < |l.rings[c]| - 1 ==> TooSmall(l, l.rings[c][i], asize)
  }

  /** No block listed in the classes from lo up to hi is large enough. */
  ghost predicate NoneFits(l: Layout, lo: int, hi: int, asize: int) {
    forall p {:trigger l.cls[p]} :: p in l.cls && lo <= l.cls[p] < hi ==> TooSmall(l, p, asize)
  }

  /** bp is the first block of its list that fits, and no lower class from lo on has one. */
  ghost predicate FirstFit(l: Layout, bp: int, c: int, lo: int, asize: int) {
    && bp in l.cls && l.cls[bp] == c && bp in l.blocks && l.blocks[bp].size >= asize
    && 0 <= lo <= c < |l.rings| && Inside(l.rings[c], bp)
    && NoneFits(l, lo, c, asize)
    && PrefixTooSmall(l, c, Position(l.rings[c], bp), asize)
  }

  /** Following links from node k of list c. */
  lemma WalkRing(m: Memory, l: Layout, c: int, k: int)
    requires Holds(m, l) && 0 <= c < |l.rings| && 0 <= k < |l.rings[c]| - 1
    ensures l.brk <= |m| && 0 < l.base && WordPair(l, l.rings[c][k]) && m[l.rings[c][k]] == l.rings[c][k + 1]
    ensures l.RingAt(c) && l.rings[c][0] == l.Root(c)
    ensures l.rings[c][k + 1] == l.Root(c) <==> k + 1 == |l.rings[c]| - 1
  {
    var r := l.rings[c];
    assert l.RingAt(c) && Linked(m, r) && LinkAt(m, r, k);
    NodePair(l, c, k);
    if k + 1 < |r| - 1 { assert l.ListedAt(r[k + 1]) && InExtent(l.blocks, r[k + 1], l.First(), l.brk); }
  }

  /** The block at node k of list c. */
  lemma NodeBlock(m: Memory, l: Layout, c: int, k: int)
    requires Holds(m, l) && 0 <= c < |l.rings| && 0 < k < |l.rings[c]| - 1
    ensures
      var p := l.rings[c][k];
      && l.brk <= |m| && IsWord(l.base, l.brk, p - 4) && 4 <= p && p - 4 < |m|
      && p in l.cls && l.cls[p] == c && p in l.blocks && SizeOf(m[p - 4]) == l.blocks[p].size
      && Inside(l.rings[c], p) && Position(l.rings[c], p) == k
  {
    var p := l.rings[c][k];
    assert l.RingAt(c) && l.ListedAt(p);
    ReadBlock(m, l, p);
  }

  /** A list walked to its end has no fitting block. */
  lemma WalkedRing(l: Layout, lo: int, c: int, asize: int)
    requires l.Threaded() && 0 <= c < |l.rings|
    requires NoneFits(l, lo, c, asize) && PrefixTooSmall(l, c, |l.rings[c]| - 1, asize)
    ensures NoneFits(l, lo, c + 1, asize)
  {
    forall p | p in l.cls && lo <= l.cls[p] < c + 1 ensures TooSmall(l, p, asize) {
      if l.cls[p] == c {
        assert l.ListedAt(p);
        var k := Position(l.rings[c], p);
        assert TooSmall(l, l.rings[c][k], asize);
      }
    }
  }

  /** Any block listed above the request's own class is large enough, bulk or not. */
  lemma HigherFits(l: Layout, p: int, asize: int)
    requires l.Threaded() && l.Classed() && 0 < asize <= 0x7fffffff
    requires p in l.cls && GetSizeClass(asize) < l.cls[p]
    ensures p in l.blocks && l.blocks[p].size >= asize
  {
    hide GetSizeClass, GetLowerBound;
    var s := GetSizeClass(asize);
    assert l.ListedAt(p) && l.FitsAt(p);
    ClassInterval(asize, s);
    if s + 1 < l.cls[p] { BoundsIncrease(s + 1, l.cls[p]); }
  }

  /** So beyond that class the head of the first non-empty list is taken. */
  lemma HigherHeadTaken(l: Layout, bp: int, c: int, asize: int)
    requires l.Threaded() && l.Classed() && 0 < asize <= 0x7fffffff
    requires FirstFit(l, bp, c, GetSizeClass(asize), asize) && GetSizeClass(asize) < c
    ensures l.rings[c][1] == bp
    ensures forall p :: p in l.cls ==> !(GetSizeClass(asize) < l.cls[p] < c)
  {
    hide GetSizeClass, GetLowerBound;
    assert l.ListedAt(bp) && l.RingAt(c);
    if Position(l.rings[c], bp) > 1 {
      var h := l.rings[c][1];
      assert TooSmall(l, h, asize);
      HigherFits(l, h, asize);
    }
    forall p | p in l.cls && GetSizeClass(asize) < l.cls[p] < c ensures false {
      assert TooSmall(l, p, asize);
      HigherFits(l, p, asize);
    }
  }

  /** When the search fails, any free block that is large enough is bulk and in a lower class. */
  lemma UnfoundIsBulk(l: Layout, p: int, asize: int)
    requires l.Threaded() && l.AllListed() && l.Classed() && 0 < asize
    requires NoneFits(l, GetSizeClass(asize), SIZE_CLASS_NUM, asize)
    requires IsFree(l.blocks, p) && l.blocks[p].size >= asize
    ensures l.blocks[p].bulk && p in l.cls && l.cls[p] < GetSizeClass(asize)
  {
    hide GetSizeClass, GetLowerBound;
    var s := GetSizeClass(asize);
    assert l.ListedAt(p) && l.FitsAt(p);
    assert l.cls[p] >= s ==> TooSmall(l, p, asize);
    ClassFloor(asize);
    if l.cls[p] + 1 < s { BoundsIncrease(l.cls[p] + 1, s); }
  }

  lemma ClassFloor(asize: int)
    requires 0 < asize
    ensures GetLowerBound(GetSizeClass(asize)) < asize
  {
    if asize <= 0x7fffffff { ClassInterval(asize, GetSizeClass(asize)); }
  }

  lemma RingCount(l: Layout)
    requires l.Threaded()
    ensures |l.rings| == SIZE_CLASS_NUM
  {
  }

  lemma RingShape(l: Layout, c: int)
    requires l.Threaded() && 0 <= c < |l.rings|
    ensures l.RingAt(c)
  {
  }
}
