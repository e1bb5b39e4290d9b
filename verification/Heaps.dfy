/**
 * What it means for a memory to hold a layout, and that every group of writes the allocator
 * makes turns a memory of one layout into a memory of the next.
 */
module Heaps {
  import opened SizeClasses
  import opened Tags
  import opened Blocks
  import opened Rings
  import opened Layouts

  type Memory = seq<int>

  /** Prologue tags and epilogue header. */
  ghost predicate Fenced(m: Memory, l: Layout) {
    && 0 < l.base && l.First() <= l.brk <= |m|
    && m[l.base + 260] == Pack(8, ALLOCTAG) && m[l.base + 264] == Pack(8, ALLOCTAG)
    && m[l.brk - 4] == Pack(0, ALLOCTAG)
  }

  ghost predicate AllLinked(m: Memory, l: Layout) {
    forall c {:trigger l.rings[c]} :: 0 <= c < |l.rings| ==> Linked(m, l.rings[c])
  }

  /** The memory holds the layout: tags, fences and links all agree with it. */
  ghost predicate Holds(m: Memory, l: Layout) {
    && l.Tiled() && l.Threaded()
    && Tagged(m, l.blocks) && Fenced(m, l) && AllLinked(m, l)
  }

  ghost predicate SamePayload(m: Memory, m': Memory, p: int, b: Block)
    requires |m| == |m'|
  {
    forall w {:trigger m'[w]} :: p <= w < p + b.size - 8 && 0 <= w < |m| ==> m'[w] == m[w]
  }

  ghost predicate SameWords(m: Memory, m': Memory, lo: int, hi: int) {
    |m| == |m'| && forall w {:trigger m'[w]} :: lo <= w < hi && 0 <= w < |m| ==> m'[w] == m[w]
  }

  /** No payload word of these blocks differs. */
  ghost predicate Keeps(m: Memory, m': Memory, bs: Blocks) {
    && |m| == |m'|
    && forall p {:trigger SamePayload(m, m', p, bs[p])} :: p in bs ==> SamePayload(m, m', p, bs[p])
  }

  lemma KeepsSame(m: Memory, bs: Blocks)
    ensures Keeps(m, m, bs)
  {
  }

  lemma KeepsSub(m: Memory, m': Memory, bs: Blocks, sub: Blocks)
    requires Keeps(m, m', bs)
    requires forall p :: p in sub ==> p in bs && bs[p] == sub[p]
    ensures Keeps(m, m', sub)
  {
    forall p | p in sub ensures SamePayload(m, m', p, sub[p]) {
      assert SamePayload(m, m', p, bs[p]);
    }
  }

  lemma KeepsTrans(m: Memory, m1: Memory, m2: Memory, bs: Blocks, bs1: Blocks)
    requires Keeps(m, m1, bs) && Keeps(m1, m2, bs1)
    requires forall p :: p in bs ==> p in bs1 && bs1[p] == bs[p]
    ensures Keeps(m, m2, bs)
  {
    forall p | p in bs ensures SamePayload(m, m2, p, bs[p]) {
      assert SamePayload(m, m1, p, bs[p]) && SamePayload(m1, m2, p, bs1[p]);
    }
  }

  /** x is a root, or a free block: its first two words may hold links. */
  ghost predicate MayLink(l: Layout, x: int) {
    IsFree(l.blocks, x) || l.base <= x <= l.base + 248
  }

  /** Tags and fences still hold, and no payload in use has changed. */
  ghost predicate Frame(m: Memory, m': Memory, l: Layout) {
    Tagged(m', l.blocks) && Fenced(m', l) && Keeps(m, m', Live(l.blocks))
  }

  /** Writing a link disturbs no tag, no fence and no payload in use. */
  lemma WriteLink(m: Memory, l: Layout, x: int, a: int, v: int)
    requires l.Tiled() && Tagged(m, l.blocks) && Fenced(m, l)
    requires MayLink(l, x) && (a == x || a == x + 4)
    ensures 0 <= a < l.brk
    ensures Tagged(m[a := v], l.blocks) && Fenced(m[a := v], l)
    ensures Keeps(m, m[a := v], Live(l.blocks))
  {
    hide Block.Word, Pack;
    var bs := l.blocks;
    if x in bs { assert InExtent(bs, x, l.First(), l.brk); }
    forall p | p in bs
      ensures TagAt(m[a := v], bs, p)
      ensures bs[p].alloc ==> SamePayload(m, m[a := v], p, bs[p])
    {
      assert TagAt(m, bs, p) && InExtent(bs, p, l.First(), l.brk);
      if x in bs { assert Apart(bs, p, x) && Apart(bs, x, p); }
    }
  }

  /** Nodes of different rings share no word. */
  lemma NodesApart(l: Layout, c: int, k: int, d: int)
    requires l.Tiled() && l.Threaded()
    requires 0 <= c < |l.rings| && 0 <= d < |l.rings| && c != d
    requires 0 <= k < |l.rings[c]|
    ensures Clear(l.rings[d], l.rings[c][k])
  {
    var x := l.rings[c][k];
    var r := l.rings[d];
    assert l.RingAt(c) && l.RingAt(d);
    if 0 < k < |l.rings[c]| - 1 { assert l.ListedAt(x) && InExtent(l.blocks, x, l.First(), l.brk); }
    forall i | 0 <= i < |r| ensures r[i] + 8 <= x || x + 8 <= r[i] {
      if 0 < i < |r| - 1 {
        assert l.ListedAt(r[i]) && InExtent(l.blocks, r[i], l.First(), l.brk);
        if 0 < k < |l.rings[c]| - 1 {
          assert Apart(l.blocks, r[i], x) && Apart(l.blocks, x, r[i]);
        }
      }
    }
  }

  /** Every node of a ring may hold links. */
  lemma NodeMayLink(l: Layout, c: int, k: int)
    requires l.Tiled() && l.Threaded()
    requires 0 < l.base && 0 <= c < |l.rings| && 0 <= k < |l.rings[c]|
    ensures MayLink(l, l.rings[c][k])
    ensures 0 <= l.rings[c][k] && l.rings[c][k] + 4 < l.brk
  {
    assert l.RingAt(c);
    var x := l.rings[c][k];
    if 0 < k < |l.rings[c]| - 1 { assert l.ListedAt(x) && InExtent(l.blocks, x, l.First(), l.brk); }
  }

  lemma ClearLinked(m: Memory, r: Ring, x: int, a: int, v: int)
    requires Linked(m, r) && Clear(r, x) && (a == x || a == x + 4) && 0 <= a < |m|
    ensures Linked(m[a := v], r)
  {
    var m' := m[a := v];
    forall k | 0 <= k < |r| - 1 ensures LinkAt(m', r, k) {
      assert LinkAt(m, r, k);
      assert r[k] == r[k] && r[k + 1] == r[k + 1];
    }
  }

  lemma FrameLink(m0: Memory, m: Memory, l: Layout, x: int, a: int, v: int)
    requires l.Tiled() && Frame(m0, m, l)
    requires MayLink(l, x) && (a == x || a == x + 4)
    ensures 0 <= a < |m| && Frame(m0, m[a := v], l)
  {
    WriteLink(m, l, x, a, v);
    KeepsTrans(m0, m, m[a := v], Live(l.blocks), Live(l.blocks));
  }

  lemma HoldsFrame(m: Memory, l: Layout)
    requires Holds(m, l)
    ensures Frame(m, m, l)
  {
  }

  /** The memory after linking p in front of ring c. */
  function Inserted(m: Memory, root: int, p: int): Memory
    requires 0 <= root < |m| && 0 <= m[root] && m[root] + 4 < |m| && 0 <= p && p + 4 < |m|
  {
    m[p + 4 := root][p := m[root]][m[root] + 4 := p][root := p]
  }

  lemma InsertHolds(m: Memory, l: Layout, p: int, c: int)
    requires Holds(m, l) && IsFree(l.blocks, p) && p !in l.cls && 0 <= c < |l.rings|
    ensures 0 <= l.Root(c) < |m| && 0 <= m[l.Root(c)] && m[l.Root(c)] + 4 < |m| && 0 <= p && p + 4 < |m|
    ensures l.RingAt(c)
    ensures Holds(Inserted(m, l.Root(c), p), l.Insert(p, c))
    ensures Keeps(m, Inserted(m, l.Root(c), p), Live(l.blocks))
  {
    l.RingSpaced(c);
    l.RingClear(c, p);
    var r := l.rings[c];
    assert Linked(m, r) && InExtent(l.blocks, p, l.First(), l.brk);
    PushFrontLinked(m, r, p);
    var m1 := m[p + 4 := r[0]];
    var m2 := m1[p := r[1]];
    var m3 := m2[r[1] + 4 := p];
    var m4 := m3[r[0] := p];
    l.InsertThreaded(p, c);
    NodeMayLink(l, c, 0);
    NodeMayLink(l, c, 1);
    HoldsFrame(m, l);
    FrameLink(m, m, l, p, p + 4, r[0]);
    FrameLink(m, m1, l, p, p, r[1]);
    FrameLink(m, m2, l, r[1], r[1] + 4, p);
    FrameLink(m, m3, l, r[0], r[0], p);
    forall d | 0 <= d < |l.rings| ensures Linked(m4, l.Insert(p, c).rings[d]) {
      if d != c {
        InsertOther(m, l, p, c, d);
      }
    }
  }

  lemma InsertOther(m: Memory, l: Layout, p: int, c: int, d: int)
    requires l.Tiled() && l.Threaded() && 0 <= p && p + 4 < |m|
    requires 0 <= c < |l.rings| && 0 <= d < |l.rings| && c != d
    requires p in l.blocks && p !in l.cls
    requires Linked(m, l.rings[d]) && |l.rings[c]| >= 2
    requires 0 <= l.rings[c][0] < |m| && 0 <= l.rings[c][1] + 4 < |m|
    ensures
      var r := l.rings[c];
      Linked(m[p + 4 := r[0]][p := r[1]][r[1] + 4 := p][r[0] := p], l.rings[d])
  {
    hide Layout.Tiled, Layout.Threaded, Linked, Clear;
    var r := l.rings[c];
    l.RingClear(d, p);
    NodesApart(l, c, 0, d);
    NodesApart(l, c, 1, d);
    ClearLinked(m, l.rings[d], p, p + 4, r[0]);
    ClearLinked(m[p + 4 := r[0]], l.rings[d], p, p, r[1]);
    ClearLinked(m[p + 4 := r[0]][p := r[1]], l.rings[d], r[1], r[1] + 4, p);
    ClearLinked(m[p + 4 := r[0]][p := r[1]][r[1] + 4 := p], l.rings[d], r[0], r[0], p);
  }

  /** The memory after unlinking a block whose neighbours in its ring are `prev` and `next`. */
  function Removed(m: Memory, prev: int, next: int): Memory
    requires 0 <= prev < |m| && 0 <= next + 4 < |m|
  {
    m[prev := next][next + 4 := prev]
  }

  lemma RemoveHolds(m: Memory, l: Layout, p: int)
    requires Holds(m, l) && p in l.cls
    ensures 0 <= p && p + 4 < |m| && 0 <= m[p + 4] < |m| && 0 <= m[p] + 4 < |m|
    ensures l.ListedAt(p)
    ensures Holds(Removed(m, m[p + 4], m[p]), l.Remove(p))
    ensures Keeps(m, Removed(m, m[p + 4], m[p]), Live(l.blocks))
  {
    assert l.ListedAt(p);
    var c := l.cls[p];
    l.RingSpaced(c);
    var r := l.rings[c];
    var k := Position(r, p);
    assert Linked(m, r) && InExtent(l.blocks, p, l.First(), l.brk);
    DropLinked(m, r, k);
    var m1 := m[r[k - 1] := r[k + 1]];
    var m2 := m1[r[k + 1] + 4 := r[k - 1]];
    l.RemoveThreaded(p);
    NodeMayLink(l, c, k - 1);
    NodeMayLink(l, c, k + 1);
    HoldsFrame(m, l);
    FrameLink(m, m, l, r[k - 1], r[k - 1], r[k + 1]);
    FrameLink(m, m1, l, r[k + 1], r[k + 1] + 4, r[k - 1]);
    forall d | 0 <= d < |l.rings| ensures Linked(m2, l.Remove(p).rings[d]) {
      if d != c {
        NodesApart(l, c, k - 1, d);
        NodesApart(l, c, k + 1, d);
        ClearLinked(m, l.rings[d], r[k - 1], r[k - 1], r[k + 1]);
        ClearLinked(m1, l.rings[d], r[k + 1], r[k + 1] + 4, r[k - 1]);
      }
    }
  }

  /** The memory after set_boundary_tag. */
  function TagsSet(m: Memory, p: int, b: Block): Memory
    requires 4 <= p && p - 4 < |m| && 0 <= p + b.size - 8 < |m|
  {
    m[p - 4 := b.Word()][p + b.size - 8 := b.Word()]
  }

  /** p is one of the blocks bs of a heap that ends at hi, as are all listed blocks. */
  ghost predicate Covers(l: Layout, bs: Blocks, hi: int, p: int) {
    && 0 < l.base && p in bs && Disjoint(bs, l.First(), hi)
    && (forall r :: r in l.cls ==> r in bs)
  }

  /** Among the blocks bs only p is new or changed. */
  ghost predicate OnlyNew(bs: Blocks, was: Blocks, p: int) {
    forall r :: r in bs && r != p ==> r in was && bs[r] == was[r]
  }

  /** Tag words lie outside all payloads and links. */
  lemma SetTagFrame(m: Memory, l: Layout, bs: Blocks, hi: int, p: int)
    requires l.Ringed() && AllLinked(m, l)
    requires Covers(l, bs, hi, p) && hi <= |m|
    ensures 4 <= p && p + bs[p].size <= hi && bs[p].size >= 16 && l.First() <= p
    ensures AllLinked(TagsSet(m, p, bs[p]), l)
    ensures Keeps(m, TagsSet(m, p, bs[p]), bs)
  {
    hide Block.Word;
    assert InExtent(bs, p, l.First(), hi);
    var m' := TagsSet(m, p, bs[p]);
    forall c | 0 <= c < |l.rings| ensures Linked(m', l.rings[c]) {
      SetTagRing(m, l, bs, hi, p, c);
    }
    forall r | r in bs ensures SamePayload(m, m', r, bs[r]) {
      assert Apart(bs, p, r) && Apart(bs, r, p) && InExtent(bs, r, l.First(), hi);
    }
  }

  lemma SetTagRing(m: Memory, l: Layout, bs: Blocks, hi: int, p: int, c: int)
    requires l.Ringed() && 0 <= c < |l.rings| && Linked(m, l.rings[c])
    requires Covers(l, bs, hi, p) && 4 <= p && p + bs[p].size <= hi <= |m| && bs[p].size >= 16
    ensures Linked(TagsSet(m, p, bs[p]), l.rings[c])
  {
    hide Block.Word;
    assert l.RingAt(c) && InExtent(bs, p, l.First(), hi);
    var r := l.rings[c];
    var m' := TagsSet(m, p, bs[p]);
    forall k | 0 <= k < |r| - 1 ensures LinkAt(m', r, k) {
      assert LinkAt(m, r, k);
      SetTagNode(l, bs, hi, p, c, k);
      SetTagNode(l, bs, hi, p, c, k + 1);
    }
  }

  lemma SetTagNode(l: Layout, bs: Blocks, hi: int, p: int, c: int, k: int)
    requires l.Ringed() && 0 <= c < |l.rings| && 0 <= k < |l.rings[c]|
    requires Covers(l, bs, hi, p)
    ensures
      var x, f := l.rings[c][k], p + bs[p].size - 8;
      x != p - 4 && x + 4 != p - 4 && x != f && x + 4 != f
  {
    var x := l.rings[c][k];
    assert l.RingAt(c) && InExtent(bs, p, l.First(), hi);
    if 0 < k < |l.rings[c]| - 1 {
      assert InExtent(bs, x, l.First(), hi);
      assert Apart(bs, p, x) && Apart(bs, x, p);
    }
  }

  /** Retagging, or merging unlisted neighbours into p. */
  lemma RetagHolds(m: Memory, l: Layout, bs: Blocks, p: int)
    requires Holds(m, l) && Covers(l, bs, l.brk, p) && OnlyNew(bs, l.blocks, p) && Tiling(bs, l.First(), l.brk)
    requires forall r :: r in l.cls ==> IsFree(bs, r)
    ensures 4 <= p && p + bs[p].size <= l.brk && bs[p].size >= 16
    ensures Holds(TagsSet(m, p, bs[p]), l.(blocks := bs))
    ensures Keeps(m, TagsSet(m, p, bs[p]), bs)
  {
    SetTagFrame(m, l, bs, l.brk, p);
    RetagTags(m, l.blocks, bs, l.First(), l.brk, p);
    l.SameThreaded(bs);
  }

  lemma RetagTags(m: Memory, was: Blocks, bs: Blocks, lo: int, hi: int, p: int)
    requires Tagged(m, was)
    requires p in bs && OnlyNew(bs, was, p) && Disjoint(bs, lo, hi)
    requires 4 <= lo <= p && p + bs[p].size <= hi <= |m| && bs[p].size >= 16
    ensures Tagged(TagsSet(m, p, bs[p]), bs)
  {
    hide Block.Word;
    forall r | r in bs && r != p ensures TagAt(m, bs, r) {
      assert TagAt(m, was, r);
    }
    assert bs == bs[p := bs[p]];
    SetTagKeepsTags(m, bs, lo, hi, p, bs[p], bs);
  }

  /** The heap grows to hi; p is the last block of the grown heap. */
  lemma GrowHolds(m: Memory, l: Layout, bs: Blocks, hi: int, p: int)
    requires Holds(m, l) && Covers(l, bs, hi, p) && OnlyNew(bs, l.blocks, p) && Tiling(bs, l.First(), hi)
    requires forall r :: r in l.cls ==> IsFree(bs, r)
    requires l.brk <= hi <= |m| && p + bs[p].size == hi
    ensures 4 <= p && bs[p].size >= 16
    ensures Holds(TagsSet(m, p, bs[p])[hi - 4 := Pack(0, ALLOCTAG)], l.(blocks := bs, brk := hi))
    ensures Keeps(m, TagsSet(m, p, bs[p])[hi - 4 := Pack(0, ALLOCTAG)], bs)
  {
    hide Block.Word, Pack;
    SetTagFrame(m, l, bs, hi, p);
    RetagTags(m, l.blocks, bs, l.First(), hi, p);
    var m1 := TagsSet(m, p, bs[p]);
    var m2 := m1[hi - 4 := Pack(0, ALLOCTAG)];
    l.SameThreaded(bs);
    assert l.(blocks := bs, brk := hi).Threaded() by { SameThreadedBrk(l.(blocks := bs), hi); }
    EpilogueFrame(m1, l.(blocks := bs, brk := hi));
    KeepsTrans(m, m1, m2, bs, bs);
  }

  lemma SameThreadedBrk(l: Layout, hi: int)
    requires l.Threaded()
    ensures l.(brk := hi).Threaded()
  {
    var t := l.(brk := hi);
    forall d | 0 <= d < |t.rings| ensures t.RingAt(d) { assert l.RingAt(d); }
    forall q | q in t.cls ensures t.ListedAt(q) { assert l.ListedAt(q); }
  }

  /** The epilogue word lies outside every block and root. */
  lemma EpilogueFrame(m: Memory, l: Layout)
    requires l.Tiled() && l.Threaded() && Tagged(m, l.blocks) && AllLinked(m, l)
    requires 0 < l.base && l.First() <= l.brk <= |m|
    ensures
      var m' := m[l.brk - 4 := Pack(0, ALLOCTAG)];
      Tagged(m', l.blocks) && AllLinked(m', l) && Keeps(m, m', l.blocks)
  {
    hide Block.Word, Pack;
    var m' := m[l.brk - 4 := Pack(0, ALLOCTAG)];
    forall p | p in l.blocks
      ensures TagAt(m', l.blocks, p) && SamePayload(m, m', p, l.blocks[p])
    {
      assert TagAt(m, l.blocks, p) && InExtent(l.blocks, p, l.First(), l.brk);
    }
    forall c | 0 <= c < |l.rings| ensures Linked(m', l.rings[c]) {
      var r := l.rings[c];
      forall k | 0 <= k < |r| - 1 ensures LinkAt(m', r, k) {
        assert LinkAt(m, r, k);
        NodeMayLink(l, c, k);
        NodeMayLink(l, c, k + 1);
        NodeBelow(l, c, k);
        NodeBelow(l, c, k + 1);
      }
    }
  }

  lemma NodeBelow(l: Layout, c: int, k: int)
    requires l.Tiled() && l.Threaded() && 0 <= c < |l.rings| && 0 <= k < |l.rings[c]|
    ensures l.rings[c][k] + 8 < l.brk
  {
    assert l.RingAt(c);
    var x := l.rings[c][k];
    if 0 < k < |l.rings[c]| - 1 { assert l.ListedAt(x) && InExtent(l.blocks, x, l.First(), l.brk); }
  }

  /** Block p, listed or not, is split into an allocated or free b and a free rest c behind it. */
  ghost predicate Splits(l: Layout, p: int, b: Block, c: Block) {
    && p in l.blocks && l.blocks[p].size == b.size + c.size
    && b.size >= 16 && c.size >= 16 && b.size % 8 == 0 == c.size % 8
  }

  lemma SplitTags(m: Memory, l: Layout, p: int, b: Block, c: Block)
    requires Holds(m, l) && Splits(l, p, b, c)
    ensures
      var q, bs1 := p + b.size, l.blocks[p := b];
      var bs2 := bs1[q := c];
      && 4 <= p && q + c.size <= l.brk && q !in l.blocks
      && var m2 := TagsSet(TagsSet(m, p, b), q, c);
      && Tiling(bs2, l.First(), l.brk)
      && Tagged(m2, bs2) && Fenced(m2, l) && AllLinked(m2, l) && Keeps(m, m2, bs1)
  {
    hide Block.Word, Pack;
    var q, bs1 := p + b.size, l.blocks[p := b];
    var bs2 := bs1[q := c];
    SplitTiling(l.blocks, l.First(), l.brk, p, b, c, bs2);
    assert InExtent(l.blocks, p, l.First(), l.brk) && Octets(l.blocks, p);
    assert q in l.blocks ==> Apart(l.blocks, p, q);
    SubDisjoint(bs1, bs2, l.First(), l.brk);
    forall r | r in l.cls ensures r in bs1 && r in bs2 { assert l.ListedAt(r); }
    SetTagFrame(m, l, bs1, l.brk, p);
    RetagTags(m, l.blocks, bs1, l.First(), l.brk, p);
    var m1 := TagsSet(m, p, b);
    SetTagFrame(m1, l, bs2, l.brk, q);
    RetagTags(m1, bs1, bs2, l.First(), l.brk, q);
    KeepsTrans(m, m1, TagsSet(m1, q, c), bs1, bs2);
  }

  lemma SubDisjoint(bs1: Blocks, bs2: Blocks, lo: int, hi: int)
    requires Disjoint(bs2, lo, hi)
    requires forall r :: r in bs1 ==> r in bs2 && bs1[r] == bs2[r]
    ensures Disjoint(bs1, lo, hi)
  {
    forall r | r in bs1 ensures InExtent(bs1, r, lo, hi) && Octets(bs1, r) {
      assert InExtent(bs2, r, lo, hi) && Octets(bs2, r);
    }
    forall r, s | r in bs1 && s in bs1 ensures Apart(bs1, r, s) { assert Apart(bs2, r, s); }
  }

  /** Splitting a block that is in no list. */
  lemma SplitHolds(m: Memory, l: Layout, p: int, b: Block, c: Block)
    requires Holds(m, l) && Splits(l, p, b, c) && p !in l.cls
    ensures
      var q := p + b.size;
      && 4 <= p && q + c.size <= l.brk && q !in l.blocks
      && var m2 := TagsSet(TagsSet(m, p, b), q, c);
      && Holds(m2, l.(blocks := l.blocks[p := b][q := c]))
      && Keeps(m, m2, l.blocks[p := b])
  {
    hide Block.Word, Pack;
    SplitTags(m, l, p, b, c);
    var bs2 := l.blocks[p := b][p + b.size := c];
    forall r | r in l.cls ensures IsFree(bs2, r) { assert l.ListedAt(r); }
    l.SameThreaded(bs2);
  }

  /** The memory after q takes the place of a listed block between prev and next. */
  function Swapped(m: Memory, q: int, prev: int, next: int): Memory
    requires 0 <= q && q + 4 < |m| && 0 <= prev < |m| && 0 <= next + 4 < |m|
  {
    m[q + 4 := prev][q := next][prev := q][next + 4 := q]
  }

  /** Splitting a listed block in place: its rest inherits its position in its list. */
  lemma SwapHolds(m: Memory, l: Layout, p: int, b: Block, c: Block)
    requires Holds(m, l) && Splits(l, p, b, c) && p in l.cls && b.alloc && !c.alloc
    ensures
      var q := p + b.size;
      && 4 <= p && q + c.size <= l.brk && q !in l.blocks
      && 0 <= m[p + 4] < |m| && 0 <= m[p] + 4 < |m| && l.ListedAt(p)
      && var m2 := TagsSet(TagsSet(m, p, b), q, c);
      && Holds(Swapped(m2, q, m[p + 4], m[p]), l.Swap(p, q, b, c))
      && Keeps(m, Swapped(m2, q, m[p + 4], m[p]), Live(l.blocks))
  {
    hide Block.Word, Pack;
    SplitTags(m, l, p, b, c);
    var q := p + b.size;
    var m2 := TagsSet(TagsSet(m, p, b), q, c);
    assert l.ListedAt(p);
    assert q in l.cls ==> l.ListedAt(q);
    l.SwapThreaded(p, q, b, c);
    SwapLinks(m, m2, l, p, q, b, c);
    SwapFrame(m, m2, l, p, q, b, c);
  }

  lemma SwapLinks(m: Memory, m2: Memory, l: Layout, p: int, q: int, b: Block, c: Block)
    requires Holds(m, l) && Splits(l, p, b, c) && p in l.cls && q == p + b.size && q !in l.blocks
    requires AllLinked(m2, l) && |m2| == |m|
    ensures 0 <= p && q + 4 < |m| && 0 <= m[p + 4] < |m| && 0 <= m[p] + 4 < |m| && l.ListedAt(p)
    ensures AllLinked(Swapped(m2, q, m[p + 4], m[p]), l.Swap(p, q, b, c))
  {
    var cl, k := SwapPlace(m, l, p);
    var r := l.rings[cl];
    assert InExtent(l.blocks, p, l.First(), l.brk);
    forall d | 0 <= d < |l.rings| ensures Linked(Swapped(m2, q, m[p + 4], m[p]), l.Swap(p, q, b, c).rings[d]) {
      SwapClear(l, p, q, d);
      assert Linked(m2, l.rings[d]);
      if d == cl {
        SwapLinked(m2, r, k, q);
      } else {
        SwapElsewhere(m2, l, cl, k, d, q);
      }
    }
  }

  /** Where p is listed, and what its links say. */
  lemma SwapPlace(m: Memory, l: Layout, p: int) returns (c: int, k: int)
    requires Holds(m, l) && p in l.cls
    ensures l.ListedAt(p) && c == l.cls[p] && k == Position(l.rings[c], p) && Spaced(l.rings[c])
    ensures 0 <= p && p + 4 < |m| && m[p + 4] == l.rings[c][k - 1] && m[p] == l.rings[c][k + 1]
    ensures 0 <= m[p + 4] < |m| && 0 <= m[p] && m[p] + 4 < |m|
  {
    assert l.ListedAt(p) && InExtent(l.blocks, p, l.First(), l.brk);
    c := l.cls[p];
    l.RingSpaced(c);
    k := Position(l.rings[c], p);
    assert Linked(m, l.rings[c]) && LinkAt(m, l.rings[c], k) && LinkAt(m, l.rings[c], k - 1);
    NodeMayLink(l, c, k - 1);
    NodeMayLink(l, c, k + 1);
  }

  /** Rings other than the one node k of ring c is in. */
  lemma SwapElsewhere(m: Memory, l: Layout, c: int, k: int, d: int, q: int)
    requires l.Tiled() && l.Threaded() && 0 <= c < |l.rings| && 0 <= d < |l.rings| && c != d
    requires 0 < k < |l.rings[c]| - 1 && Linked(m, l.rings[d]) && Clear(l.rings[d], q)
    requires 0 <= q && q + 4 < |m| && 0 <= l.rings[c][k - 1] < |m| && 0 <= l.rings[c][k + 1] + 4 < |m|
    ensures Linked(Swapped(m, q, l.rings[c][k - 1], l.rings[c][k + 1]), l.rings[d])
  {
    hide Linked, Clear, Layout.Threaded, Layout.Tiled;
    NodesApart(l, c, k - 1, d);
    NodesApart(l, c, k + 1, d);
    SwapOther(m, l.rings[d], q, l.rings[c][k - 1], l.rings[c][k + 1]);
  }

  lemma SwapOther(m: Memory, r: Ring, q: int, prev: int, next: int)
    requires 0 <= q && q + 4 < |m| && 0 <= prev < |m| && 0 <= next + 4 < |m|
    requires Linked(m, r) && Clear(r, q) && Clear(r, prev) && Clear(r, next)
    ensures Linked(Swapped(m, q, prev, next), r)
  {
    hide Linked, Clear;
    ClearLinked(m, r, q, q + 4, prev);
    ClearLinked(m[q + 4 := prev], r, q, q, next);
    ClearLinked(m[q + 4 := prev][q := next], r, prev, prev, q);
    ClearLinked(m[q + 4 := prev][q := next][prev := q], r, next, next + 4, q);
  }

  /** An address inside block p, past its first two words, is clear of every node. */
  lemma SwapClear(l: Layout, p: int, q: int, d: int)
    requires l.Tiled() && l.Threaded() && 0 <= d < |l.rings|
    requires p in l.blocks && p + 16 <= q && q + 16 <= p + l.blocks[p].size
    ensures l.RingAt(d) && Clear(l.rings[d], q)
  {
    assert l.RingAt(d) && InExtent(l.blocks, p, l.First(), l.brk);
    var r := l.rings[d];
    forall i | 0 <= i < |r| ensures r[i] + 8 <= q || q + 8 <= r[i] {
      if 0 < i < |r| - 1 {
        assert l.ListedAt(r[i]) && InExtent(l.blocks, r[i], l.First(), l.brk);
        assert Apart(l.blocks, r[i], p) && Apart(l.blocks, p, r[i]);
      }
    }
  }

  lemma SwapFrame(m: Memory, m2: Memory, l: Layout, p: int, q: int, b: Block, c: Block)
    requires Holds(m, l) && Splits(l, p, b, c) && p in l.cls && q == p + b.size && q !in l.blocks
    requires b.alloc && !c.alloc
    requires 4 <= p && q + c.size <= l.brk
    requires
      var bs2 := l.blocks[p := b][q := c];
      Tiling(bs2, l.First(), l.brk) && Tagged(m2, bs2) && Fenced(m2, l) && Keeps(m, m2, l.blocks[p := b])
    ensures 0 <= m[p + 4] < |m| && 0 <= m[p] + 4 < |m| && l.ListedAt(p)
    ensures
      var m3 := Swapped(m2, q, m[p + 4], m[p]);
      Tagged(m3, l.Swap(p, q, b, c).blocks) && Fenced(m3, l.Swap(p, q, b, c)) && Keeps(m, m3, Live(l.blocks))
  {
    hide Block.Word, Pack;
    assert l.ListedAt(p) && InExtent(l.blocks, p, l.First(), l.brk);
    var cl := l.cls[p];
    var r := l.rings[cl];
    var k := Position(r, p);
    assert Linked(m, r) && LinkAt(m, r, k) && LinkAt(m, r, k - 1);
    var prev, next := r[k - 1], r[k + 1];
    var l2 := l.Swap(p, q, b, c);
    NodeMayLink(l, cl, k - 1);
    NodeMayLink(l, cl, k + 1);
    SwapNeighbour(l, p, q, b, c, k - 1);
    SwapNeighbour(l, p, q, b, c, k + 1);
    FrameLink(m2, m2, l2, q, q + 4, prev);
    FrameLink(m2, m2[q + 4 := prev], l2, q, q, next);
    FrameLink(m2, m2[q + 4 := prev][q := next], l2, prev, prev, q);
    FrameLink(m2, m2[q + 4 := prev][q := next][prev := q], l2, next, next + 4, q);
    KeepsSub(m, m2, l.blocks[p := b], Live(l.blocks));
    KeepsTrans(m, m2, Swapped(m2, q, prev, next), Live(l.blocks), Live(l2.blocks));
  }

  lemma SwapNeighbour(l: Layout, p: int, q: int, b: Block, c: Block, i: int)
    requires l.Tiled() && l.Threaded() && p in l.cls && p != q && q !in l.blocks && l.ListedAt(p)
    requires
      var k := Position(l.rings[l.cls[p]], p);
      i == k - 1 || i == k + 1
    ensures MayLink(l.Swap(p, q, b, c), l.rings[l.cls[p]][i])
  {
    assert l.RingAt(l.cls[p]);
    var r := l.rings[l.cls[p]];
    if 0 < i < |r| - 1 { assert l.ListedAt(r[i]); }
  }

  /** The two words at x are aligned words of the heap. */
  ghost predicate WordPair(l: Layout, x: int) {
    && l.base <= x && x + 8 <= l.brk
    && IsWord(l.base, l.brk, x) && IsWord(l.base, l.brk, x + 4)
  }

  lemma PairGrows(l: Layout, x: int, hi: int)
    requires WordPair(l, x) && l.brk <= hi
    ensures IsWord(l.base, hi, x) && IsWord(l.base, hi, x + 4)
  {
  }

  lemma NodePair(l: Layout, c: int, k: int)
    requires l.Tiled() && l.Threaded() && 0 <= c < |l.rings| && 0 <= k < |l.rings[c]|
    ensures WordPair(l, l.rings[c][k])
  {
    hide IsWord;
    assert l.RingAt(c);
    var x := l.rings[c][k];
    if 0 < k < |l.rings[c]| - 1 {
      assert l.ListedAt(x);
      BlockPair(l, x);
    } else {
      RootWords(l.base, l.brk, c);
    }
  }

  lemma BlockPair(l: Layout, p: int)
    requires l.Tiled() && p in l.blocks
    ensures WordPair(l, p)
  {
    hide IsWord;
    assert InExtent(l.blocks, p, l.First(), l.brk) && Octets(l.blocks, p);
    WordsAround(l.base, l.brk, p);
  }

  lemma RootWords(base: int, hi: int, c: int)
    requires (base % 8 == 0 || (base + PREAMBLE) % 8 == 0) && 0 <= c && base + 8 * c + 8 <= hi
    ensures IsWord(base, hi, base + 8 * c) && IsWord(base, hi, base + 8 * c + 4)
  {
    hide IsWord;
    if base % 8 != 0 {
      OctetSum(base + PREAMBLE, PREAMBLE);
    }
    OctetSum(base, 8 * c) by { assert 8 * c % 8 == 0; }
    WordsAround(base, hi, base + 8 * c);
  }

  /** The words InsertBlock touches. */
  lemma InsertAccess(m: Memory, l: Layout, p: int, c: int)
    requires Holds(m, l) && p in l.blocks && 0 <= c < SIZE_CLASS_NUM
    ensures 0 < l.base && l.brk <= |m|
    ensures WordPair(l, p) && WordPair(l, l.Root(c)) && WordPair(l, m[l.Root(c)]) && l.Root(c) + 16 < p
    ensures c < |l.rings|
  {
    assert InExtent(l.blocks, p, l.First(), l.brk);
    assert l.RingAt(c) && Linked(m, l.rings[c]) && LinkAt(m, l.rings[c], 0);
    BlockPair(l, p);
    NodePair(l, c, 0);
    NodePair(l, c, 1);
  }

  /** The words RemoveFromList touches; the neighbours' links are elsewhere than p's. */
  lemma RemoveAccess(m: Memory, l: Layout, p: int)
    requires Holds(m, l) && p in l.cls
    ensures 0 < l.base && l.brk <= |m|
    ensures WordPair(l, p) && WordPair(l, m[p + 4]) && WordPair(l, m[p])
    ensures m[p + 4] != p && m[p] != p && m[p + 4] != p + 4
    ensures l.ListedAt(p)
  {
    assert l.ListedAt(p);
    var c := l.cls[p];
    var k := Position(l.rings[c], p);
    assert Linked(m, l.rings[c]) && LinkAt(m, l.rings[c], k) && LinkAt(m, l.rings[c], k - 1);
    l.RingSpaced(c);
    NodePair(l, c, k - 1);
    NodePair(l, c, k);
    NodePair(l, c, k + 1);
  }

  /** What the two tags of a block say. */
  ghost predicate Describes(w: int, b: Block) {
    && SizeOf(w) == b.size && IsAlloc(w) == b.alloc && BulkBit(w) == (if b.bulk then BULKTAG else FREETAG)
  }

  /** Reading a block's own header. */
  lemma ReadBlock(m: Memory, l: Layout, p: int)
    requires Holds(m, l) && p in l.blocks
    ensures 0 < l.base && l.brk <= |m|
    ensures l.First() <= p && 16 <= l.blocks[p].size && End(l.blocks, p) <= l.brk
    ensures p % 8 == 0 && l.blocks[p].size % 8 == 0
    ensures m[p - 4] == l.blocks[p].Word() && m[End(l.blocks, p) - 8] == l.blocks[p].Word()
    ensures Describes(m[p - 4], l.blocks[p])
    ensures IsWord(l.base, l.brk, p - 4) && IsWord(l.base, l.brk, End(l.blocks, p) - 8)
  {
    hide IsWord, SizeOf, IsAlloc, BulkBit, IsMarked;
    var b := l.blocks[p];
    assert InExtent(l.blocks, p, l.First(), l.brk) && Octets(l.blocks, p) && TagAt(m, l.blocks, p);
    PackDecodes(b.size, b.alloc, b.bulk, false);
    WordsAround(l.base, l.brk, p);
    OctetSum(p, b.size);
    WordsAround(l.base, l.brk, p + b.size);
  }

  lemma EpilogueDecodes()
    ensures SizeOf(Pack(0, ALLOCTAG)) == 0 && IsAlloc(Pack(0, ALLOCTAG))
  {
  }

  /** Reading the header after a block: the next block's, or the epilogue's, which looks allocated. */
  lemma ReadNext(m: Memory, l: Layout, p: int)
    requires Holds(m, l) && p in l.blocks
    ensures
      var e := End(l.blocks, p);
      && l.base < e <= l.brk <= |m| && IsWord(l.base, l.brk, e - 4)
      && (e in l.blocks <==> e < l.brk)
      && (IsFree(l.blocks, e) <==> !IsAlloc(m[e - 4]))
      && (e in l.blocks ==> Describes(m[e - 4], l.blocks[e]))
      && (e == l.brk ==> SizeOf(m[e - 4]) == 0)
  {
    hide IsWord, SizeOf, IsAlloc, BulkBit, Pack;
    var e := End(l.blocks, p);
    ReadBlock(m, l, p);
    if e in l.blocks {
      ReadBlock(m, l, e);
    } else {
      EpilogueDecodes();
      WordsAround(l.base, l.brk, e);
    }
  }

  lemma FirstFooter(m: Memory, l: Layout)
    requires Fenced(m, l) && l.First() % 8 == 0
    ensures SizeOf(m[l.base + 264]) == 8 && IsAlloc(m[l.base + 264])
    ensures IsWord(l.base, l.brk, l.base + 264) && IsWord(l.base, l.brk, l.base + 260)
  {
    hide IsWord;
    assert m[l.base + 264] == 9;
    OctetSum(l.First(), 8);
    WordsAround(l.base, l.brk, l.base + 264);
  }

  /** Reading the footer before a block or the break: the left block's, or the prologue's. */
  lemma ReadPrev(m: Memory, l: Layout, p: int)
    requires Holds(m, l) && (p in l.blocks || p == l.brk)
    ensures l.First() <= p <= l.brk <= |m| && 0 < l.base && IsWord(l.base, l.brk, p - 8)
    ensures
      var q := p - SizeOf(m[p - 8]);
      && l.base + 264 <= q <= p - 8 && IsWord(l.base, l.brk, q - 4) && m[q - 4] == m[p - 8]
      && (q in l.blocks <==> p != l.First())
      && (q in l.blocks ==> End(l.blocks, q) == p && Describes(m[p - 8], l.blocks[q]))
      && (IsFree(l.blocks, q) <==> !IsAlloc(m[p - 8]))
  {
    hide SizeOf, IsAlloc, BulkBit, Pack, TagBits, Block.Word;
    assert p in l.blocks ==> InExtent(l.blocks, p, l.First(), l.brk);
    if p == l.First() {
      FirstFooter(m, l);
      assert p - 8 in l.blocks ==> InExtent(l.blocks, p - 8, l.First(), l.brk);
    } else {
      assert InExtent(l.blocks, l.First(), l.First(), l.brk);
      LeftNeighbour(l.blocks, l.First(), l.brk, p, l.First());
      var q :| q in l.blocks && End(l.blocks, q) == p;
      ReadBlock(m, l, q);
    }
  }

  /** Linking p in leaves the rest of its own extent alone. */
  lemma InsertInterior(m: Memory, l: Layout, p: int, c: int)
    requires Holds(m, l) && IsFree(l.blocks, p) && p !in l.cls && 0 <= c < |l.rings|
    requires 0 <= l.Root(c) < |m| && 0 <= m[l.Root(c)] && m[l.Root(c)] + 4 < |m| && 0 <= p && p + 4 < |m|
    ensures End(l.blocks, p) <= |m|
    ensures SameWords(m, Inserted(m, l.Root(c), p), p + 8, End(l.blocks, p) - 8)
  {
    assert l.RingAt(c) && Linked(m, l.rings[c]) && LinkAt(m, l.rings[c], 0);
    assert InExtent(l.blocks, p, l.First(), l.brk);
    var h := l.rings[c][1];
    if h != l.Root(c) {
      assert l.ListedAt(h) && InExtent(l.blocks, h, l.First(), l.brk);
      assert Apart(l.blocks, h, p) && Apart(l.blocks, p, h);
    }
  }

  lemma HoldsTiled(m: Memory, l: Layout)
    requires Holds(m, l)
    ensures l.Tiled() && l.Threaded()
  {
  }
}
