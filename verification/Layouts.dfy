/** The abstract heap: its blocks, and the 32 rings that list the free ones. */
module Layouts {
  import opened SizeClasses
  import opened Blocks
  import opened Rings

  /** Bytes from the first root to the first block: 32 roots, padding, prologue, epilogue header. */
  const PREAMBLE := 272

  /**
   * base is the address of the first root and brk the end of the heap; cls gives each listed
   * block its class, rings[c] is the list of class c.
   */
  datatype Layout = Layout(base: int, brk: int, blocks: Blocks, cls: map<int, int>, rings: seq<Ring>) {

    /** Address of the first block. */
    function First(): int { base + PREAMBLE }

    function Root(c: int): int { base + 8 * c }

    ghost predicate RingAt(c: int)
      requires 0 <= c < |rings|
    {
      var r := rings[c];
      && |r| >= 2 && r[0] == Root(c) && r[|r| - 1] == Root(c)
      && (forall k {:trigger r[k]} :: 0 < k < |r| - 1 ==> r[k] in cls && cls[r[k]] == c)
      && (forall j, k {:trigger r[j], r[k]} :: 0 < j < k < |r| - 1 ==> r[j] != r[k])
    }

    ghost predicate ListedAt(p: int)
      requires p in cls
    {
      IsFree(blocks, p) && 0 <= cls[p] < |rings| && Inside(rings[cls[p]], p)
    }

    ghost predicate Ringed() {
      && |rings| == SIZE_CLASS_NUM
      && (forall c {:trigger RingAt(c)} :: 0 <= c < |rings| ==> RingAt(c))
    }

    /** The rings list each block of cls exactly once, in the ring of its class. */
    ghost predicate Threaded() {
      && Ringed()
      && (forall p {:trigger ListedAt(p)} :: p in cls ==> ListedAt(p))
    }

    /** Every free block is in some list. */
    ghost predicate AllListed() {
      forall p {:trigger IsFree(blocks, p)} :: IsFree(blocks, p) ==> p in cls
    }

    /**
     * A listed block exceeds the lower bound of its class, and the upper bound too unless it
     * is bulk: those may sit in a list below their size.
     */
    ghost predicate FitsAt(p: int)
      requires p in cls && p in blocks
    {
      && GetLowerBound(cls[p]) < blocks[p].size
      && (blocks[p].bulk || blocks[p].size <= GetLowerBound(cls[p] + 1))
    }

    ghost predicate Classed() {
      forall p {:trigger FitsAt(p)} :: p in cls && p in blocks ==> FitsAt(p)
    }

    ghost predicate Tiled() { Tiling(blocks, First(), brk) }

    function Insert(p: int, c: int): Layout
      requires 0 <= c < |rings| && |rings[c]| >= 2
    {
      this.(cls := cls[p := c], rings := rings[c := PushFront(rings[c], p)])
    }

    ghost function Remove(p: int): Layout
      requires p in cls && ListedAt(p)
    {
      var c := cls[p];
      this.(cls := cls - {p}, rings := rings[c := Drop(rings[c], Position(rings[c], p))])
    }

    /** Block p shrinks to an allocated b and the free rest, at q, takes its place in the list. */
    ghost function Swap(p: int, q: int, b: Block, rest: Block): Layout
      requires p in cls && ListedAt(p)
    {
      var c := cls[p];
      this.(blocks := blocks[p := b][q := rest], cls := (cls - {p})[q := c],
            rings := rings[c := rings[c][Position(rings[c], p) := q]])
    }

    lemma InsertThreaded(p: int, c: int)
      requires Threaded() && p !in cls && IsFree(blocks, p) && 0 <= c < |rings|
      ensures RingAt(c)
      ensures Insert(p, c).Threaded()
    {
      assert RingAt(c);
      var t := Insert(p, c);
      forall d | 0 <= d < |t.rings| ensures t.RingAt(d) {
        assert RingAt(d);
      }
      forall q | q in t.cls ensures t.ListedAt(q) {
        if q == p {
          assert t.rings[c][1] == p;
        } else {
          assert ListedAt(q);
          var k := Position(rings[cls[q]], q);
          if cls[q] == c { assert t.rings[c][k + 1] == q; }
        }
      }
    }

    lemma RemoveThreaded(p: int)
      requires Threaded() && p in cls
      ensures ListedAt(p)
      ensures Remove(p).Threaded()
    {
      assert ListedAt(p);
      var t, c := Remove(p), cls[p];
      var k := Position(rings[c], p);
      assert RingAt(c);
      forall d | 0 <= d < |t.rings| ensures t.RingAt(d) {
        assert RingAt(d);
      }
      forall q | q in t.cls ensures t.ListedAt(q) {
        assert ListedAt(q);
        var i := Position(rings[cls[q]], q);
        if cls[q] == c { assert t.rings[c][if i < k then i else i - 1] == q; }
      }
    }

    lemma SwapThreaded(p: int, q: int, b: Block, rest: Block)
      requires Threaded() && p in cls && q !in cls && p != q && !rest.alloc
      ensures ListedAt(p)
      ensures Swap(p, q, b, rest).Threaded()
    {
      assert ListedAt(p);
      var t, c := Swap(p, q, b, rest), cls[p];
      var k := Position(rings[c], p);
      assert RingAt(c);
      forall d | 0 <= d < |t.rings| ensures t.RingAt(d) {
        assert RingAt(d);
      }
      forall s | s in t.cls ensures t.ListedAt(s) {
        if s == q {
          assert t.rings[c][k] == q;
        } else {
          assert ListedAt(s);
          var i := Position(rings[cls[s]], s);
          assert t.rings[cls[s]][i] == s;
        }
      }
    }

    /** Changing blocks that are not listed leaves the lists alone. */
    lemma SameThreaded(bs: Blocks)
      requires Threaded()
      requires forall p :: p in cls ==> IsFree(bs, p)
      ensures this.(blocks := bs).Threaded()
    {
      var t := this.(blocks := bs);
      forall d | 0 <= d < |t.rings| ensures t.RingAt(d) {
        assert RingAt(d);
      }
      forall q | q in t.cls ensures t.ListedAt(q) {
        assert ListedAt(q);
      }
    }

    /** Nodes of a ring share no word, and all lie in the heap outside every header. */
    lemma RingSpaced(c: int)
      requires Tiled() && Threaded() && 0 <= c < |rings|
      ensures RingAt(c) && Spaced(rings[c])
    {
      assert RingAt(c);
      var r := rings[c];
      forall j, k | 0 <= j < k < |r| - 1 ensures r[j] + 8 <= r[k] || r[k] + 8 <= r[j] {
        assert ListedAt(r[k]) && InExtent(blocks, r[k], First(), brk);
        if j > 0 {
          assert ListedAt(r[j]) && InExtent(blocks, r[j], First(), brk);
          assert Apart(blocks, r[j], r[k]) && Apart(blocks, r[k], r[j]);
        }
      }
    }

    /** A block that is in no list stays clear of every node. */
    lemma RingClear(c: int, p: int)
      requires Tiled() && Threaded() && 0 <= c < |rings|
      requires p in blocks && p !in cls
      ensures RingAt(c) && Clear(rings[c], p)
    {
      assert RingAt(c) && InExtent(blocks, p, First(), brk);
      var r := rings[c];
      forall k | 0 <= k < |r| ensures r[k] + 8 <= p || p + 8 <= r[k] {
        if 0 < k < |r| - 1 {
          assert ListedAt(r[k]) && InExtent(blocks, r[k], First(), brk);
          assert Apart(blocks, r[k], p) && Apart(blocks, p, r[k]);
        }
      }
    }
  }
}
