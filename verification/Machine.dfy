/**
 * The allocator's statements on bare memory: 32-bit words and addresses, and no invariant. They
 * say what mm_realloc does to a heap when it takes its shrinking branch for a growing request.
 */
module Machine {
  import opened SizeClasses
  import opened Tags
  import opened Heaps
  import opened Guards

  /** Wild: some access would miss the aligned words of the storage. */
  datatype Outcome<+T> = Wild | Done(value: T) {
    predicate IsFailure() { Wild? }

    function PropagateFailure<U>(): Outcome<U>
      requires Wild?
    {
      Wild
    }

    function Extract(): T
      requires Done?
    {
      value
    }
  }

  /** Addresses and sizes are 32 bits wide. */
  function Wrap(x: int): int { if 0 <= x < WORD_LIMIT then x else x % WORD_LIMIT }

  lemma WrapBounds(x: int)
    ensures 0 <= Wrap(x) < WORD_LIMIT
  {
  }

  lemma WordSize(w: int)
    requires 0 <= w < WORD_LIMIT
    ensures 0 <= SizeOf(w) < WORD_LIMIT && SizeOf(w) % 8 == 0
  {
  }

  lemma WrapOctet(x: int)
    requires x % 8 == 0
    ensures Wrap(x) % 8 == 0
  {
    var q, k := x / WORD_LIMIT, x / 8;
    assert Wrap(x) == x - WORD_LIMIT * q;
    assert Wrap(x) == 8 * (k - 0x2000_0000 * q);
  }

  /** Sums of sizes stay sizes when they wrap. */
  lemma WrappedOctets(size: int, w: int)
    requires size % 8 == 0 && 0 <= w < WORD_LIMIT
    ensures 0 <= Wrap(size + SizeOf(w)) < WORD_LIMIT && Wrap(size + SizeOf(w)) % 8 == 0
  {
    hide SizeOf, Wrap;
    WordSize(w);
    OctetSum(size, SizeOf(w));
    WrapOctet(size + SizeOf(w));
    WrapBounds(size + SizeOf(w));
  }

  /** So do differences. */
  lemma MinusOctets(w: int, b: int)
    requires 0 <= w < WORD_LIMIT && b % 8 == 0
    ensures 0 <= Minus(SizeOf(w), b) < WORD_LIMIT && Minus(SizeOf(w), b) % 8 == 0
  {
    hide SizeOf, Wrap;
    WordSize(w);
    OctetSum(SizeOf(w), b);
    WrapOctet(SizeOf(w) - b);
    assert Minus(SizeOf(w), b) == Wrap(SizeOf(w) - b) by { WrapIsMinus(SizeOf(w), b); }
  }

  lemma WrapIsMinus(a: int, b: int)
    ensures Minus(a, b) == Wrap(a - b)
  {
  }

  /** The memory from the heap's base to the end of the storage the heap grows in. */
  datatype Image = Image(cells: Memory, base: int, end: int) {

    predicate Has(a: int) { IsWord(base, end, a) && 0 <= a < |cells| }

    function Get(a: int): Outcome<int> { if Has(Wrap(a)) then Done(cells[Wrap(a)]) else Wild }

    function Put(a: int, v: int): Outcome<Image> {
      if Has(Wrap(a)) then Done(this.(cells := cells[Wrap(a) := v])) else Wild
    }

    function SizeAt(a: int): Outcome<int> {
      var w :- Get(a);
      Done(SizeOf(w))
    }

    /** NEXT_BLKP. */
    function NextOf(bp: int): Outcome<int> {
      var size :- SizeAt(bp - 4);
      Done(Wrap(bp + size))
    }

    /** PREV_BLKP. */
    function PrevOf(bp: int): Outcome<int> {
      var size :- SizeAt(bp - 8);
      Done(Wrap(bp - size))
    }

    /** set_boundary_tag: the footer's place follows from the header just written. */
    function SetTag(bp: int, size: int, tag: int): Outcome<Image> {
      var i :- Put(bp - 4, Pack(size, tag));
      var written :- i.SizeAt(bp - 4);
      i.Put(bp + written - 8, Pack(size, tag))
    }

    /** insert_block. */
    function Insert(bp: int, asize: int): Outcome<Image> {
      var root := base + 8 * GetSizeClass(asize);
      var i1 :- Put(bp + 4, root);
      var first :- i1.Get(root);
      var i2 :- i1.Put(bp, first);
      var next :- i2.Get(root);
      var i3 :- i2.Put(next + 4, bp);
      i3.Put(root, bp)
    }

    /** remove_from_list. */
    function Remove(bp: int): Outcome<Image> {
      var prev :- Get(bp + 4);
      var next :- Get(bp);
      var i :- Put(prev, next);
      var next' :- i.Get(bp);
      var prev' :- i.Get(bp + 4);
      i.Put(next' + 4, prev')
    }

    /** The tag GET_ALLOC(FTRP(PREV_BLKP(bp))) looks at. */
    function TagBefore(bp: int): Outcome<int> {
      var prev :- PrevOf(bp);
      var size :- SizeAt(prev - 4);
      Get(prev + size - 8)
    }

    /** The tag GET_ALLOC(HDRP(NEXT_BLKP(bp))) looks at. */
    function TagBehind(bp: int): Outcome<int> {
      var next :- NextOf(bp);
      Get(next - 4)
    }

    /** coalesce. */
    function Coalesce(bp: int): Outcome<Image> {
      var before :- TagBefore(bp);
      var behind :- TagBehind(bp);
      var size :- SizeAt(bp - 4);
      if IsAlloc(before) && IsAlloc(behind) then Done(this) else
      var i1 :- Remove(bp);
      i1.Join(bp, size, IsAlloc(before), IsAlloc(behind))
    }

    /** The rest of coalesce, once the block itself is out of its list. */
    function Join(bp: int, size: int, prevAlloc: bool, nextAlloc: bool): Outcome<Image> {
      var joined :- TakeNext(bp, size, nextAlloc);
      joined.0.TakePrev(bp, joined.1, prevAlloc)
    }

    /** The step of coalesce for the next block. */
    function TakeNext(bp: int, size: int, nextAlloc: bool): Outcome<(Image, int)> {
      if nextAlloc then Done((this, size)) else
      var next :- NextOf(bp);
      var more :- SizeAt(next - 4);
      var i :- Remove(next);
      Done((i, Wrap(size + more)))
    }

    /** The step of coalesce for the previous block, and the tagging and listing of the result. */
    function TakePrev(bp: int, size: int, prevAlloc: bool): Outcome<Image> {
      if prevAlloc then Settle(bp, size) else
      var prev :- PrevOf(bp);
      var i :- Remove(prev);
      var more :- i.SizeAt(prev - 4);
      i.Settle(prev, Wrap(size + more))
    }

    function Settle(bp: int, size: int): Outcome<Image> {
      var i :- SetTag(bp, size, FREETAG);
      i.Insert(bp, size)
    }

    /** The branch of mm_realloc that cuts a block down to asize bytes, whatever it is given. */
    function Cut(bp: int, asize: int): Outcome<Image> {
      var hdr :- Get(bp - 4);
      var rest := Minus(SizeOf(hdr), asize);
      var i1 :- SetTag(bp, asize, BulkBit(hdr) + ALLOCTAG);
      var i2 :- i1.CutOff(bp, rest);
      i2.FreeRest(bp, rest)
    }

    /** Tags the part cut off. */
    function CutOff(bp: int, rest: int): Outcome<Image> {
      var q :- NextOf(bp);
      var hdr :- Get(bp - 4);
      SetTag(q, rest, BulkBit(hdr))
    }

    /** Lists the part cut off, and joins it with its neighbours. */
    function FreeRest(bp: int, rest: int): Outcome<Image> {
      var q :- NextOf(bp);
      var i :- Insert(q, rest);
      var q' :- i.NextOf(bp);
      i.Coalesce(q')
    }
  }

  // The outcome of each statement, where its words are in the heap and where they are not.

  lemma WrapSame(x: int)
    requires 0 <= x < WORD_LIMIT
    ensures Wrap(x) == x && Wrap(x + WORD_LIMIT) == x
  {
  }

  lemma GetDone(i: Image, a: int)
    requires i.Has(a) && a < WORD_LIMIT
    ensures i.Get(a) == Done(i.cells[a])
  {
    WrapSame(a);
  }

  lemma PutDone(i: Image, a: int, v: int)
    requires i.Has(a) && a < WORD_LIMIT
    ensures i.Put(a, v) == Done(i.(cells := i.cells[a := v]))
  {
    WrapSame(a);
  }

  lemma SizeDone(i: Image, a: int)
    requires i.Has(a) && a < WORD_LIMIT
    ensures i.SizeAt(a) == Done(SizeOf(i.cells[a]))
  {
    GetDone(i, a);
  }

  lemma OutsideHeap(i: Image, a: int)
    requires 0 <= a < WORD_LIMIT && (a < i.base || a + 4 > i.end)
    ensures i.Get(a) == Wild
    ensures forall v :: i.Put(a, v) == Wild
  {
    WrapSame(a);
  }

  /** set_boundary_tag with both ends in the heap; the size may be a negative one, wrapped. */
  lemma TagDone(i: Image, bp: int, size: int, tag: int, ftr: int)
    requires i.Has(bp - 4) && i.Has(ftr) && 0 <= bp - 4 < WORD_LIMIT && 0 <= ftr < WORD_LIMIT
    requires Wrap(bp + size - 8) == ftr && size % 8 == 0 && 0 <= tag < 4
    ensures i.SetTag(bp, size, tag) == Done(i.(cells := i.cells[bp - 4 := Pack(size, tag)][ftr := Pack(size, tag)]))
  {
    WrapSame(bp - 4);
    SizeDecodes(size, tag);
  }

  lemma TagIfDone(i: Image, bp: int, size: int, tag: int, ftr: int)
    requires i.SetTag(bp, size, tag).Done? && 0 <= bp - 4 < WORD_LIMIT && 0 <= ftr < WORD_LIMIT
    requires Wrap(bp + size - 8) == ftr && size % 8 == 0 && 0 <= tag < 4
    ensures
      && i.Has(bp - 4) && i.Has(ftr)
      && i.SetTag(bp, size, tag).value == i.(cells := i.cells[bp - 4 := Pack(size, tag)][ftr := Pack(size, tag)])
  {
    hide IsWord;
    WrapSame(bp - 4);
    SizeDecodes(size, tag);
  }

  /** insert_block where every word it touches is in the heap and the new node is clear of the list. */
  lemma InsertDone(i: Image, bp: int, asize: int)
    requires
      var root := i.base + 8 * GetSizeClass(asize);
      && i.Has(bp) && i.Has(bp + 4) && i.Has(root) && 0 <= root < bp < WORD_LIMIT - 8 && root != bp + 4
      && 0 <= i.cells[root] && i.Has(i.cells[root] + 4) && i.cells[root] + 4 < WORD_LIMIT
    ensures
      var root := i.base + 8 * GetSizeClass(asize);
      i.Insert(bp, asize) == Done(i.(cells := Inserted(i.cells, root, bp)))
  {
    hide IsWord, GetSizeClass;
    var root := i.base + 8 * GetSizeClass(asize);
    PutDone(i, bp + 4, root);
    var i1 := i.(cells := i.cells[bp + 4 := root]);
    GetDone(i1, root);
    PutDone(i1, bp, i.cells[root]);
    var i2 := i1.(cells := i1.cells[bp := i.cells[root]]);
    GetDone(i2, root);
    PutDone(i2, i.cells[root] + 4, bp);
    var i3 := i2.(cells := i2.cells[i.cells[root] + 4 := bp]);
    PutDone(i3, root, bp);
  }

  /** What listing a block in the first list does to a word that is neither a link of its head nor of its root. */
  lemma InsertLeaves(i: Image, q: int, asize: int, x: int)
    requires asize <= 16 && i.Insert(q, asize).Done? && 0 <= i.base && i.base + 8 <= q && q + 8 < WORD_LIMIT
    requires 0 <= i.base < |i.cells| && 0 <= x < |i.cells| && x != i.base && x != q
    requires 0 <= i.cells[i.base] && i.cells[i.base] + 4 < WORD_LIMIT && i.cells[i.base] + 4 != x
    ensures
      var c := i.Insert(q, asize).value.cells;
      |c| == |i.cells| && c[x] == if x == q + 4 then i.base else i.cells[x]
  {
    hide IsWord, Wrap;
    WrapSame(q);
    WrapSame(q + 4);
    WrapSame(i.base);
    WrapSame(i.cells[i.base] + 4);
  }

  lemma RemoveDone(i: Image, bp: int)
    requires i.Has(bp) && i.Has(bp + 4) && bp + 4 < WORD_LIMIT
    requires
      var prev, next := i.cells[bp + 4], i.cells[bp];
      && i.Has(prev) && prev < WORD_LIMIT && i.Has(next + 4) && next + 4 < WORD_LIMIT && prev != bp && prev != bp + 4
    ensures
      var prev, next := i.cells[bp + 4], i.cells[bp];
      i.Remove(bp) == Done(i.(cells := Removed(i.cells, prev, next)))
  {
    hide IsWord;
    var prev, next := i.cells[bp + 4], i.cells[bp];
    GetDone(i, bp + 4);
    GetDone(i, bp);
    PutDone(i, prev, next);
    var i1 := i.(cells := i.cells[prev := next]);
    GetDone(i1, bp + 4);
    GetDone(i1, bp);
    PutDone(i1, next + 4, prev);
  }

  /** The header just written says where the part "cut off" starts: behind the old end. */
  lemma NextAfterCut(i: Image, p: int, n: int, bulk: int)
    requires i.Has(p - 4) && 4 <= p && i.cells[p - 4] == Pack(n, bulk + ALLOCTAG)
    requires (bulk == FREETAG || bulk == BULKTAG) && n % 8 == 0 && 0 <= p + n < WORD_LIMIT && p < WORD_LIMIT
    ensures i.NextOf(p) == Done(p + n) && i.Get(p - 4) == Done(i.cells[p - 4])
    ensures BulkBit(i.cells[p - 4]) == bulk && SizeOf(i.cells[p - 4]) == n && IsAlloc(i.cells[p - 4])
  {
    hide IsWord, SizeOf, BulkBit;
    GetDone(i, p - 4);
    PackDecodes(n, true, bulk == BULKTAG, false);
    WrapSame(p + n);
  }

  lemma WrappedSize(size: int, n: int)
    requires 0 <= size < n < WORD_LIMIT && (n - size) % 8 == 0
    ensures Minus(size, n) == WORD_LIMIT + size - n && (WORD_LIMIT + size - n) % 8 == 0
  {
  }

  /** Its size wraps, and so does the place of its footer: where the block's own footer was. */
  lemma CutOffDone(i: Image, p: int, size: int, n: int, bulk: int)
    requires 4 <= p && 16 <= size < n && (n - size) % 8 == 0 && n % 8 == 0 && p + n < WORD_LIMIT
    requires i.Has(p - 4) && i.Has(p + n - 4) && i.Has(p + size - 8)
    requires i.cells[p - 4] == Pack(n, bulk + ALLOCTAG) && (bulk == FREETAG || bulk == BULKTAG)
    ensures
      var w := Pack(WORD_LIMIT + size - n, bulk);
      i.CutOff(p, WORD_LIMIT + size - n) == Done(i.(cells := i.cells[p + n - 4 := w][p + size - 8 := w]))
  {
    hide IsWord, SizeOf, IsAlloc, BulkBit, Wrap;
    NextAfterCut(i, p, n, bulk);
    WrapSame(p + size - 8);
    WrappedSize(size, n);
    TagDone(i, p + n, WORD_LIMIT + size - n, bulk, p + size - 8);
  }

  lemma WrappedClass(x: int)
    requires 0x8000_0000 <= x
    ensures GetSizeClass(x) == SIZE_CLASS_NUM - 1
  {
  }

  lemma RestOverruns(i: Image, p: int, n: int, bulk: int, rest: int)
    requires i.Has(p - 4) && 4 <= p && i.cells[p - 4] == Pack(n, bulk + ALLOCTAG)
    requires i.end < p + n + 8 && p + n < WORD_LIMIT - 8
    requires (bulk == FREETAG || bulk == BULKTAG) && n % 8 == 0 && 0 <= n
    ensures i.FreeRest(p, rest) == Wild
  {
    hide IsWord, SizeOf, IsAlloc, BulkBit, GetSizeClass, Image.NextOf;
    NextAfterCut(i, p, n, bulk);
    OutsideHeap(i, p + n + 4);
  }

  lemma OctetGap(g: int)
    requires g % 8 == 0 && 0 <= g < 16
    ensures g == 0 || g == 8
  {
  }

  lemma OctetFree(w: int)
    requires w % 8 == 0
    ensures !IsAlloc(w)
  {
    AllocDecodes(w, 0);
  }

  /** If the run stayed in the heap, a block at f would have a header that says free. */
  predicate ReadsFree(run: Outcome<Image>, size: int, f: int) {
    run.Done? ==> |run.value.cells| == size && 4 <= f <= size && !IsAlloc(run.value.cells[f - 4])
  }
}
