/** The trace-driven driver: its checks on every payload, and its measure of utilisation. */
module Driver {
  import opened Sizing
  import opened Tags
  import opened Blocks
  import opened Layouts
  import opened Heaps
  import opened Payloads
  import opened Starting
  import opened Gaps
  import opened Ranges
  import opened RangeChecks
  import opened Traces
  import opened Walking
  import opened Freeing
  import opened Coalescing
  import opened Merging
  import opened Allocators
  import opened Machine
  import opened Regrowing
  import Overgrowing
  import Fitting
  import Relisting
  import opened Stamps
  import MemLib

  /** Either end of the payload from lo to hi falls into a recorded one. */
  predicate EndsInside(r: Range, lo: int, hi: int) {
    (r.lo <= lo <= r.hi) || (r.lo <= hi <= r.hi)
  }

  predicate Within(r: Range, a: int) { r.lo <= a <= r.hi }

  /** Some byte from lo to hi is recorded in r. */
  ghost predicate Shares(r: Range, lo: int, hi: int) {
    exists a {:trigger Within(r, a)} :: lo <= a <= hi && Within(r, a)
  }

  /** The endpoint test finds every overlap except a record strictly inside the new payload. */
  lemma EndpointTestExact(r: Range, lo: int, hi: int)
    requires r.lo <= r.hi && lo <= hi
    ensures EndsInside(r, lo, hi) <==> Shares(r, lo, hi) && !(lo < r.lo && r.hi < hi)
  {
    if EndsInside(r, lo, hi) { assert Within(r, lo) || Within(r, hi); }
  }

  /** What add_range demands of a payload. */
  ghost predicate Acceptable(rs: seq<Range>, heapLo: int, heapHi: int, lo: int, hi: int) {
    && lo % 8 == 0
    && heapLo <= lo <= heapHi && heapLo <= hi <= heapHi
    && forall i {:trigger rs[i]} :: 0 <= i < |rs| ==> !EndsInside(rs[i], lo, hi)
  }

  /**
   * It demands an aligned payload inside the heap that shares no byte with a recorded one, unless
   * it has the recorded one strictly inside it.
   */
  lemma AcceptableExactly(rs: seq<Range>, heapLo: int, heapHi: int, lo: int, hi: int)
    requires lo <= hi && forall i {:trigger rs[i]} :: 0 <= i < |rs| ==> rs[i].lo <= rs[i].hi
    ensures Acceptable(rs, heapLo, heapHi, lo, hi) <==>
      && lo % 8 == 0 && heapLo <= lo && hi <= heapHi
      && forall i {:trigger rs[i]} :: 0 <= i < |rs| ==> !Shares(rs[i], lo, hi) || (lo < rs[i].lo && rs[i].hi < hi)
  {
    hide Shares, EndsInside;
    forall i {:trigger rs[i]} | 0 <= i < |rs|
      ensures EndsInside(rs[i], lo, hi) <==> Shares(rs[i], lo, hi) && !(lo < rs[i].lo && rs[i].hi < hi)
    {
      EndpointTestExact(rs[i], lo, hi);
    }
  }

  /** Checks a new payload of size bytes at lo, and records it if it passes. */
  method AddRange(rl: RangeList, lib: MemLib.Heap, lo: int, size: int) returns (ok: bool)
    requires size > 0
    modifies rl
    ensures ok <==> Acceptable(old(rl.ranges), lib.Lo(), lib.Hi(), lo, lo + size - 1)
    ensures rl.ranges == if ok then [Range(lo, lo + size - 1)] + old(rl.ranges) else old(rl.ranges)
  {
    var hi := lo + size - 1;
    if lo % 8 != 0 { return false; }
    if lo < lib.Lo() || lo > lib.Hi() || hi < lib.Lo() || hi > lib.Hi() { return false; }
    var i := 0;
    while i < |rl.ranges|
      invariant 0 <= i <= |rl.ranges| && rl.ranges == old(rl.ranges)
      invariant forall j {:trigger rl.ranges[j]} :: 0 <= j < i ==> !EndsInside(rl.ranges[j], lo, hi)
    {
      var p := rl.ranges[i];
      if EndsInside(p, lo, hi) { return false; }
      i := i + 1;
    }
    rl.ranges := [Range(lo, hi)] + rl.ranges;
    return true;
  }

  /** Held payloads are exactly those of the requests in req, each with room for its bytes. */
  ghost predicate Serving(bs: Blocks, req: map<int, int>) {
    && req.Keys == Live(bs).Keys
    && forall p {:trigger p in req} :: p in req && p in bs ==> 0 < req[p] <= bs[p].size - 8
  }

  /** A newly held payload passes every check of add_range. */
  lemma NewPayloadAcceptable(bs: Blocks, lo: int, hi: int, rs: seq<Range>, req: map<int, int>, p: int, size: int,
      base: int)
    requires Tiling(bs, lo, hi) && base <= lo && p in Live(bs) && 0 < size <= bs[p].size - 8
    requires p !in req && req.Keys + {p} == Live(bs).Keys
    requires forall q {:trigger q in req} :: q in req && q in bs ==> 0 < req[q] <= bs[q].size - 8
    requires Records(rs, req)
    ensures Acceptable(rs, base, hi - 1, p, p + size - 1)
  {
    assert InExtent(bs, p, lo, hi) && Octets(bs, p);
    forall i | 0 <= i < |rs| ensures !EndsInside(rs[i], p, p + size - 1) {
      var q := rs[i].lo;
      assert q in req && q in Live(bs).Keys;
      assert Apart(bs, p, q) && Apart(bs, q, p);
    }
  }

  /** A trace with the driver's tables of payload addresses and sizes. */
  class Trace {
    const ops: seq<Request>
    const blocks: array<int>
    const blockSizes: array<int>

    constructor (requests: seq<Request>, numIds: nat)
      requires TraceOk(requests, numIds)
      ensures ops == requests && Valid() && blocks.Length == numIds && fresh(blocks) && fresh(blockSizes)
    {
      ops := requests;
      blocks := new int[numIds];
      blockSizes := new int[numIds];
    }

    ghost predicate Valid() {
      blockSizes.Length == blocks.Length && blocks != blockSizes && TraceOk(ops, blocks.Length)
    }
  }

  /** The driver's tables are not the heap's memory. */
  ghost predicate Separate(t: Trace, mm: Allocator) {
    t.blocks as object != mm.lib.cells as object && t.blockSizes as object != mm.lib.cells as object
  }

  /** Wherever the break is, mem_sbrk can tell whether there is memory for any request of the trace. */
  predicate Answerable(ops: seq<Request>, maxAddr: int) {
    forall i {:trigger ops[i]} :: 0 <= i < |ops| && ops[i].Alloc? ==>
      var n := Growth(Align(ops[i].size + 8));
      n >= 0x8000_0000 || maxAddr + n < WORD_LIMIT
  }

  /** After i requests: the allocator is in order, and tables and records agree with what it holds. */
  ghost predicate Running(t: Trace, mm: Allocator, rl: RangeList?, req: map<int, int>, i: nat)
    reads t.blocks, t.blockSizes, mm, mm.lib, mm.lib.cells, rl
  {
    && t.Valid() && i <= |t.ops| && mm.Valid() && mm.glRanges == rl
    && mm.layout.base == mm.lib.startBrk && mm.lib.errno == 0 && Answerable(t.ops, mm.lib.maxAddr)
    && mm.lib.brk <= mm.lib.startBrk + PREAMBLE + Demand(t.ops, i)
    && Serving(mm.layout.blocks, req)
    && Tracks(t.blocks[..], t.blockSizes[..], InUse(t.ops, i), req)
    && (rl != null ==> Records(rl.ranges, req) && Intact(mm.View(), t.blocks[..], InUse(t.ops, i)))
  }

  /** Every payload in use, of an id other than but, holds the low byte of its id throughout. */
  ghost predicate IntactBut(m: Memory, blocks: seq<int>, use: map<int, int>, but: int) {
    forall id {:trigger id in use} :: id in use && id != but && 0 <= id < |blocks| ==>
      Stamped(m, blocks[id], use[id], id % 256)
  }

  ghost predicate Intact(m: Memory, blocks: seq<int>, use: map<int, int>) {
    forall id {:trigger id in use} :: id in use && 0 <= id < |blocks| ==> Stamped(m, blocks[id], use[id], id % 256)
  }

  /** A change that spares all held payloads but the one at x, which belongs to id but or is new. */
  lemma OthersIntact(m: Memory, m': Memory, l: Layout, x: int, blocks: seq<int>, sizes: seq<int>, use: map<int, int>,
      req: map<int, int>, but: int)
    requires l.Tiled() && Serving(l.blocks, req) && Tracks(blocks, sizes, use, req) && Intact(m, blocks, use)
    requires Keeps(m, m', Live(l.blocks) - {x})
    requires x !in req || (but in use && 0 <= but < |blocks| && blocks[but] == x)
    ensures IntactBut(m', blocks, use, but)
  {
    hide Keeps, Stamped;
    forall id | id in use && id != but && 0 <= id < |blocks| ensures Stamped(m', blocks[id], use[id], id % 256) {
      assert TracksAt(blocks, sizes, use, req, id);
      var p := blocks[id];
      assert p in Live(l.blocks).Keys && p != x && Octets(l.blocks, p);
      OctetIsQuad(l.blocks[p].size);
      StampKept(m, m', Live(l.blocks) - {x}, p, use[id], id % 256);
    }
  }

  lemma FreedIntact(m: Memory, blocks: seq<int>, use: map<int, int>, index: int)
    requires IntactBut(m, blocks, use, index)
    ensures Intact(m, blocks, use - {index})
  {
  }

  /** The payload of id index is filled anew. */
  lemma AllIntact(m: Memory, blocks: seq<int>, use: map<int, int>, index: int, p: int, size: int)
    requires 0 <= index < |blocks| && IntactBut(m, blocks, use, index) && Stamped(m, p, size, index % 256)
    ensures Intact(m, blocks[index := p], use[index := size])
  {
  }

  lemma ServingMore(bs: Blocks, bs': Blocks, req: map<int, int>, p: int, size: int)
    requires Serving(bs, req) && p !in Live(bs) && p in bs' && Live(bs') == Live(bs)[p := bs'[p]]
    requires 0 < size <= bs'[p].size - 8
    ensures p !in req && Serving(bs', req[p := size])
  {
    var req' := req[p := size];
    assert p !in Live(bs).Keys;
    forall q | q in req' && q in bs' ensures 0 < req'[q] <= bs'[q].size - 8 {
      if q != p {
        assert q in Live(bs).Keys;
        assert Live(bs')[q] == Live(bs)[q];
      }
    }
    assert req'.Keys == Live(bs').Keys;
  }

  lemma ServingLess(bs: Blocks, bs': Blocks, req: map<int, int>, p: int)
    requires Serving(bs, req) && p in req && Live(bs') == Live(bs) - {p}
    ensures p in Live(bs) && Serving(bs', req - {p})
  {
    var req' := req - {p};
    assert p in Live(bs).Keys;
    forall q | q in req' && q in bs' ensures 0 < req'[q] <= bs'[q].size - 8 {
      assert q in Live(bs).Keys;
      assert q in Live(bs');
      assert Live(bs')[q] == Live(bs)[q];
    }
    assert req'.Keys == Live(bs').Keys;
  }

  /** One ALLOC request: mm_malloc, the checks of add_range, the fill, and the table entries. */
  method ServeAlloc(t: Trace, mm: Allocator, rl: RangeList, ghost req: map<int, int>, i: nat) returns (ok: bool,
      ghost req': map<int, int>)
    requires Running(t, mm, rl, req, i) && i < |t.ops| && t.ops[i].Alloc? && Separate(t, mm)
    modifies t.blocks, t.blockSizes, mm.lib.cells, mm`layout, mm.lib`brk, mm.lib`errno, rl
    ensures ok ==> Running(t, mm, rl, req', i + 1)
    ensures ok <==> mm.lib.errno == 0
    ensures !ok ==> mm.lib.errno == MemLib.ENOMEM && PREAMBLE + Demand(t.ops, i + 1) > mm.lib.maxAddr - mm.lib.startBrk
  {
    hide Holds, Keeps, Layout.Threaded, Layout.Classed, Layout.AllListed, Layout.Tiled, Coalesced, Filled;
    hide Records, Tracks, Serving, Stamped, Intact, IntactBut, Acceptable, Allocator.Valid;
    hide Relisting.Placed, Relisting.HeapGrown, Relisting.GrownAt, Fitting.FirstFit, Fitting.NoneFits;
    var index, size := t.ops[i].index, t.ops[i].size;
    assert RequestOk(t.ops, t.blocks.Length, i);
    ghost var l, m, use := mm.layout, mm.View(), InUse(t.ops, i);
    ghost var blocks, sizes := t.blocks[..], t.blockSizes[..];
    Validly(mm);
    req' := req;
    var p := mm.Malloc(size);
    Validly(mm);
    if p == 0 { return false, req; }

    ghost var m1 := mm.View();
    AllocAcceptable(l.blocks, m1, mm.layout, rl.ranges, req, p, size);
    ok := AddRange(rl, mm.lib, p, size);
    if ok {
      MemSet(mm, p, index % 256, size);
      Validly(mm);
      ServingMore(l.blocks, mm.layout.blocks, req, p, size);
      RecordsAdded(old(rl.ranges), req, p, size);
      TracksAlloc(blocks, sizes, use, req, index, p, size);
      KeepsTrans(m, m1, mm.View(), Live(l.blocks), mm.Held() - {p});
      assert Live(l.blocks) - {p} == Live(l.blocks);
      OthersIntact(m, mm.View(), l, p, blocks, sizes, use, req, index);
      AllIntact(mm.View(), blocks, use, index, p, size);
      t.blocks[index] := p;
      t.blockSizes[index] := size;
      req' := req[p := size];
    }
  }

  lemma AllocAcceptable(bs: Blocks, m: Memory, l: Layout, rs: seq<Range>, req: map<int, int>, p: int, size: int)
    requires Holds(m, l) && Serving(bs, req) && Records(rs, req) && p !in Live(bs) && p in Live(l.blocks)
    requires Live(l.blocks) == Live(bs)[p := l.blocks[p]] && 0 < size <= l.blocks[p].size - 8
    ensures Acceptable(rs, l.base, l.brk - 1, p, p + size - 1)
  {
    hide Records;
    assert p !in Live(bs).Keys;
    assert Live(l.blocks).Keys == Live(bs).Keys + {p};
    forall q | q in req && q in l.blocks ensures 0 < req[q] <= l.blocks[q].size - 8 {
      assert q in Live(bs).Keys;
      assert Live(l.blocks)[q] == Live(bs)[q];
    }
    NewPayloadAcceptable(l.blocks, l.First(), l.brk, rs, req, p, size, l.base);
  }

  /** One FREE request; mm_free itself takes the payload off the range list. */
  method ServeFree(t: Trace, mm: Allocator, rl: RangeList?, ghost req: map<int, int>,
      i: nat) returns (ghost req': map<int, int>)
    requires Running(t, mm, rl, req, i) && i < |t.ops| && t.ops[i].Free? && Separate(t, mm)
    modifies mm.lib.cells, mm`layout, if rl == null then {} else {rl}
    ensures Running(t, mm, rl, req', i + 1)
    ensures t.ops[i].index in InUse(t.ops, i)
    ensures
      var p := t.blocks[t.ops[i].index];
      p in req && req[p] == InUse(t.ops, i)[t.ops[i].index] == t.blockSizes[t.ops[i].index] && req' == req - {p}
  {
    hide Holds, Keeps, Layout.Threaded, Layout.Classed, Layout.AllListed, Layout.Tiled, Coalesced, Records;
    hide Serving, MergeAround, StaleHeaders, Stamped, Intact, IntactBut, Answerable;
    hide Relisting.Released, Relisting.Joining, Relisting.HeadsList, Fitting.NoneFits;
    var index := t.ops[i].index;
    assert RequestOk(t.ops, t.blocks.Length, i);
    TracksFree(t.blocks[..], t.blockSizes[..], InUse(t.ops, i), req, index);
    var p := t.blocks[index];
    ghost var l, m := mm.layout, mm.View();
    HoldsTiled(m, l);
    ServingHeld(l.blocks, req, p);
    if rl != null { RecordsRemoved(rl.ranges, req, p); }
    mm.Free(p);
    ServingLess(l.blocks, mm.layout.blocks, req, p);
    req' := req - {p};
    if rl != null {
      OthersIntact(m, mm.View(), l, p, t.blocks[..], t.blockSizes[..], InUse(t.ops, i), req, index);
      FreedIntact(mm.View(), t.blocks[..], InUse(t.ops, i), index);
    }
  }

  /** mm_realloc, as it is coded, serves a request for size bytes at p. */
  ghost predicate Resizable(mm: Allocator, p: int, size: int)
    reads mm
  {
    && p in mm.Held()
    && (Align(size + 8) <= mm.Held()[p].size || RoomBehind(mm.layout, p, Align(size + 8)))
  }

  /** Reads off the heap whether mm_realloc will serve the request: a test the driver does not make. */
  method CanResize(mm: Allocator, p: int, size: int) returns (fits: bool)
    requires mm.Valid() && p in mm.Held()
    ensures fits <==> Resizable(mm, p, size)
  {
    hide Holds, IsWord, SizeOf, IsAlloc, Layout.Threaded, Layout.Classed, Layout.AllListed, Layout.Tiled, Coalesced;
    ReadBlock(mm.View(), mm.layout, p);
    ReadNext(mm.View(), mm.layout, p);
    var asize := Align(size + 8);
    var e := mm.NextBlkp(p);
    var hdr := mm.Get(e - 4);
    return asize <= mm.SizeAt(p - 4) || (!IsAlloc(hdr) && e + 16 <= p + asize <= e + SizeOf(hdr) - 16);
  }

  /** A request that asks for no more than is in use, both rounded up, is served. */
  lemma NotGrowingResizable(t: Trace, mm: Allocator, rl: RangeList?, req: map<int, int>, i: nat)
    requires Running(t, mm, rl, req, i) && i < |t.ops| && t.ops[i].Realloc? && GrowsNot(t.ops, i)
    ensures 0 <= t.ops[i].index < t.blocks.Length && Resizable(mm, t.blocks[t.ops[i].index], t.ops[i].size)
  {
    var index := t.ops[i].index;
    assert RequestOk(t.ops, t.blocks.Length, i);
    assert TracksAt(t.blocks[..], t.blockSizes[..], InUse(t.ops, i), req, index);
    var p := t.blocks[index];
    ServingHeld(mm.layout.blocks, req, p);
    HoldsTiled(mm.View(), mm.layout);
    assert Octets(mm.layout.blocks, p);
    AlignLeast(req[p] + 8, mm.layout.blocks[p].size);
  }

  lemma ServingOther(bs: Blocks, bs': Blocks, req: map<int, int>, p: int, size: int)
    requires Serving(bs, req) && p in req && p in bs' && Live(bs') == Live(bs)[p := bs'[p]]
    requires 0 < size <= bs'[p].size - 8
    ensures Serving(bs', req[p := size])
  {
    var req' := req[p := size];
    assert p in Live(bs).Keys;
    forall q | q in req' && q in bs' ensures 0 < req'[q] <= bs'[q].size - 8 {
      if q != p {
        assert q in Live(bs).Keys;
        assert Live(bs')[q] == Live(bs)[q];
      }
    }
    assert req'.Keys == Live(bs').Keys;
  }

  /** One call of mm_realloc that is served: the block stays where it is, and keeps its bytes. */
  method Resize(mm: Allocator, p: int, size: int, ghost n: int, ghost b: int) returns (o: Outcome<int>)
    requires mm.Valid() && 0 < size < 0x8000_0000 && Resizable(mm, p, size)
    requires n <= size && n <= mm.Held()[p].size - 8 && Stamped(mm.View(), p, n, b)
    modifies mm.lib.cells, mm`layout, mm.lib`brk, mm.lib`errno, if mm.glRanges == null then {} else {mm.glRanges}
    ensures mm.Valid() && o == Done(p) && p != 0
    ensures mm.lib.brk == old(mm.lib.brk) && mm.lib.errno == old(mm.lib.errno)
    ensures mm.glRanges != null ==> mm.glRanges.ranges == old(mm.glRanges.ranges)
    ensures p in mm.Held() && mm.Held() == old(mm.Held())[p := mm.Held()[p]] && size <= mm.Held()[p].size - 8
    ensures Keeps(old(mm.View()), mm.View(), old(mm.Held()) - {p}) && Stamped(mm.View(), p, n, b)
  {
    hide Holds, Keeps, Stamped, Layout.Threaded, Layout.Classed, Layout.AllListed, Layout.Tiled, Coalesced;
    hide MergeAround, StaleHeaders, RoomBehind, Allocator.CanFit, Allocator.HasRoom, Overgrowing.Explained, Growth;
    ghost var m, held := mm.View(), mm.Held();
    HeldShape(m, mm.layout, p);
    o := mm.Realloc(p, size);
    HeldShape(mm.View(), mm.layout, p);
    ResizeKeeps(m, mm.View(), held, mm.Held(), p, size, n, b);
  }

  lemma HeldShape(m: Memory, l: Layout, p: int)
    requires Holds(m, l) && p in Live(l.blocks)
    ensures p != 0 && Live(l.blocks)[p].size % 4 == 0 && Live(l.blocks)[p].size >= 16
  {
    hide SizeOf, IsWord, Holds;
    ReadBlock(m, l, p);
    OctetIsQuad(l.blocks[p].size);
  }

  lemma ResizeKeeps(m: Memory, m': Memory, held: Blocks, held': Blocks, p: int, size: int, n: int, b: int)
    requires p in held && p in held' && held' == held[p := held'[p]]
    requires held[p].size % 4 == 0 == held'[p].size % 4
    requires Keeps(m, m', if Align(size + 8) <= held[p].size then held' else held)
    requires n <= held[p].size - 8 && n <= held'[p].size - 8 && Stamped(m, p, n, b)
    ensures Keeps(m, m', held - {p}) && Stamped(m', p, n, b)
  {
    hide Keeps, Stamped;
    if Align(size + 8) <= held[p].size {
      KeepsSub(m, m', held', held - {p});
      StampKept(m, m', held', p, n, b);
    } else {
      KeepsSub(m, m', held, held - {p});
      StampKept(m, m', held, p, n, b);
    }
  }

  /** The checks after a reallocation: the range of the new payload, and its first n bytes. */
  method Recheck(mm: Allocator, rl: RangeList, oldp: int, newp: int, size: int, n: int, b: int) returns (ok: bool)
    requires mm.Valid() && newp in mm.Held() && 0 < n <= size <= mm.Held()[newp].size - 8 && 0 <= b < 256
    modifies rl
    ensures ok <==>
      && Acceptable(Without(old(rl.ranges), oldp), mm.lib.Lo(), mm.lib.Hi(), newp, newp + size - 1)
      && b < 128 && Stamped(mm.View(), newp, n, b)
    ensures ok ==> rl.ranges == [Range(newp, newp + size - 1)] + Without(old(rl.ranges), oldp)
  {
    hide Holds, Coalesced, Acceptable, Stamped;
    rl.RemoveRange(oldp);
    ok := AddRange(rl, mm.lib, newp, size);
    if !ok { return false; }
    ok := CheckData(mm, newp, n, b);
  }

  /** One REALLOC request: mm_realloc, the checks of add_range and of the data, the fill, and the table entries. */
  method ServeRealloc(t: Trace, mm: Allocator, rl: RangeList, ghost req: map<int, int>, i: nat) returns (ok: bool,
      ghost req': map<int, int>)
    requires Running(t, mm, rl, req, i) && i < |t.ops| && t.ops[i].Realloc? && Separate(t, mm)
    requires 0 <= t.ops[i].index < t.blocks.Length && Resizable(mm, t.blocks[t.ops[i].index], t.ops[i].size)
    modifies t.blocks, t.blockSizes, mm.lib.cells, mm`layout, mm.lib`brk, mm.lib`errno, rl
    ensures ok <==> t.ops[i].index % 256 < 128
    ensures ok ==> Running(t, mm, rl, req', i + 1)
    ensures mm.lib.errno == 0
  {
    hide Holds, Keeps, Layout.Threaded, Layout.Classed, Layout.AllListed, Layout.Tiled, Coalesced, Filled;
    hide Records, Tracks, Serving, Stamped, Intact, IntactBut, Acceptable, Resizable, Answerable, Allocator.Valid;
    hide InUse, Demand, TraceOk, RoomBehind;
    var index, size := t.ops[i].index, t.ops[i].size;
    ReallocStep(t.ops, t.blocks.Length, i);
    ghost var l, m, use := mm.layout, mm.View(), InUse(t.ops, i);
    ghost var blocks, sizes := t.blocks[..], t.blockSizes[..];
    Validly(mm);
    var oldp, oldsize := t.blocks[index], t.blockSizes[index];
    if size < oldsize { oldsize := size; }
    InUseStamped(m, l, blocks, sizes, use, req, index, oldsize);
    var o := Resize(mm, oldp, size, oldsize, index % 256);
    var newp := o.value;
    ghost var m1 := mm.View();
    Validly(mm);
    RecordsRemoved(rl.ranges, req, oldp);
    ghost var rest := Without(rl.ranges, oldp);
    ResizedAcceptable(l.blocks, m1, mm.layout, rest, req, newp, size);
    req' := req;
    ok := newp != 0;
    if ok { ok := Recheck(mm, rl, oldp, newp, size, oldsize, index % 256); }
    if ok {
      MemSet(mm, newp, index % 256, size);
      Validly(mm);
      RecordsResized(rest, req, newp, size);
      KeepsTrans(m, m1, mm.View(), Live(l.blocks) - {newp}, mm.Held() - {newp});
      ResizedBooks(m, l, mm.View(), mm.layout.blocks, blocks, sizes, use, req, index, size);
      t.blocks[index] := newp;
      t.blockSizes[index] := size;
      req' := req[newp := size];
      assert t.blocks[..] == blocks;
    }
  }

  lemma ReallocStep(ops: seq<Request>, numIds: int, i: nat)
    requires TraceOk(ops, numIds) && i < |ops| && ops[i].Realloc?
    ensures 0 <= ops[i].index < numIds && 0 < ops[i].size < 0x8000_0000 && ops[i].index in InUse(ops, i)
    ensures InUse(ops, i + 1) == InUse(ops, i)[ops[i].index := ops[i].size] && Demand(ops, i + 1) == Demand(ops, i)
  {
    assert RequestOk(ops, numIds, i);
  }

  lemma Validly(mm: Allocator)
    requires mm.Valid()
    ensures Holds(mm.View(), mm.layout) && mm.layout.Tiled() && mm.lib.Valid()
    ensures mm.layout.base == mm.sizeClassP && mm.layout.brk == mm.lib.brk
  {
  }

  /** Blocks, tables and data after id index has been given size bytes where it was, and filled anew. */
  lemma ResizedBooks(m: Memory, l: Layout, m': Memory, bs': Blocks, blocks: seq<int>, sizes: seq<int>,
      use: map<int, int>, req: map<int, int>, index: int, size: int)
    requires l.Tiled() && Serving(l.blocks, req) && Tracks(blocks, sizes, use, req) && Intact(m, blocks, use)
    requires index in use && 0 <= index < |blocks| && blocks[index] in req && blocks[index] in bs'
    requires Live(bs') == Live(l.blocks)[blocks[index] := bs'[blocks[index]]]
    requires 0 < size <= bs'[blocks[index]].size - 8
    requires Keeps(m, m', Live(l.blocks) - {blocks[index]}) && Stamped(m', blocks[index], size, index % 256)
    ensures Serving(bs', req[blocks[index] := size]) && |sizes| == |blocks|
    ensures Tracks(blocks, sizes[index := size], use[index := size], req[blocks[index] := size])
    ensures Intact(m', blocks, use[index := size])
  {
    hide Serving, Keeps, Intact, IntactBut, Stamped;
    var p := blocks[index];
    TracksResize(blocks, sizes, use, req, index, size);
    ServingOther(l.blocks, bs', req, p, size);
    OthersIntact(m, m', l, p, blocks, sizes, use, req, index);
    AllIntact(m', blocks, use, index, p, size);
    assert blocks[index := p] == blocks;
  }

  lemma RecordsResized(rs: seq<Range>, req: map<int, int>, p: int, size: int)
    requires Records(rs, req - {p})
    ensures Records([Range(p, p + size - 1)] + rs, req[p := size])
  {
    hide Records;
    RecordsAdded(rs, req - {p}, p, size);
    assert (req - {p})[p := size] == req[p := size];
  }

  lemma ResizedAcceptable(bs: Blocks, m: Memory, l: Layout, rs: seq<Range>, req: map<int, int>, p: int, size: int)
    requires Holds(m, l) && Serving(bs, req) && Records(rs, req - {p}) && p in req && p in Live(l.blocks)
    requires Live(l.blocks) == Live(bs)[p := l.blocks[p]] && 0 < size <= l.blocks[p].size - 8
    ensures Acceptable(rs, l.base, l.brk - 1, p, p + size - 1)
  {
    hide Records, Acceptable;
    var req' := req - {p};
    assert p in Live(bs).Keys;
    assert req'.Keys + {p} == Live(l.blocks).Keys;
    forall q | q in req' && q in l.blocks ensures 0 < req'[q] <= l.blocks[q].size - 8 {
      assert q in Live(bs).Keys;
      assert Live(l.blocks)[q] == Live(bs)[q];
    }
    NewPayloadAcceptable(l.blocks, l.First(), l.brk, rs, req', p, size, l.base);
  }

  /** The payload of an id in use is held, and holds the low byte of the id. */
  lemma InUseStamped(m: Memory, l: Layout, blocks: seq<int>, sizes: seq<int>, use: map<int, int>, req: map<int, int>,
      index: int, n: int)
    requires Serving(l.blocks, req) && Tracks(blocks, sizes, use, req) && Intact(m, blocks, use) && index in use
    requires 0 <= index < |blocks| && 0 <= index < |sizes| && n <= sizes[index]
    ensures 0 < sizes[index] && blocks[index] in Live(l.blocks) && sizes[index] <= l.blocks[blocks[index]].size - 8
    ensures Stamped(m, blocks[index], n, index % 256) && blocks[index] in req
  {
    assert TracksAt(blocks, sizes, use, req, index);
    ServingHeld(l.blocks, req, blocks[index]);
    StampLess(m, blocks[index], use[index], n, index % 256);
  }

  lemma ServingHeld(bs: Blocks, req: map<int, int>, p: int)
    requires Serving(bs, req) && p in req
    ensures p in Live(bs)
  {
    assert p in Live(bs).Keys;
  }

  /** Before the first request there is nothing to track. */
  lemma NothingYet(t: Trace, blocks: seq<int>, sizes: seq<int>)
    requires |sizes| == |blocks|
    ensures Tracks(blocks, sizes, InUse(t.ops, 0), map[]) && Records([], map[])
    ensures forall m: Memory :: Intact(m, blocks, InUse(t.ops, 0))
    ensures forall bs: Blocks :: Live(bs) == map[] ==> Serving(bs, map[])
  {
    forall bs: Blocks | Live(bs) == map[] ensures Serving(bs, map[]) {
      assert Live(bs).Keys == {};
    }
  }

  /** Whether REALLOC request i will be served. */
  method CanFollow(t: Trace, mm: Allocator, rl: RangeList?, ghost req: map<int, int>, i: nat) returns (fits: bool)
    requires Running(t, mm, rl, req, i) && i < |t.ops| && t.ops[i].Realloc?
    ensures 0 <= t.ops[i].index < t.blocks.Length
    ensures fits <==> Resizable(mm, t.blocks[t.ops[i].index], t.ops[i].size)
    ensures !fits ==> !GrowsNot(t.ops, i)
  {
    hide Serving, Tracks, Resizable, GrowsNot, Answerable, Intact;
    var index := t.ops[i].index;
    assert RequestOk(t.ops, t.blocks.Length, i);
    TracksFree(t.blocks[..], t.blockSizes[..], InUse(t.ops, i), req, index);
    ServingHeld(mm.layout.blocks, req, t.blocks[index]);
    fits := CanResize(mm, t.blocks[index], t.ops[i].size);
    if !fits && GrowsNot(t.ops, i) { NotGrowingResizable(t, mm, rl, req, i); }
  }

  lemma FirstRequest(t: Trace, mm: Allocator, rl: RangeList?, req: map<int, int>)
    requires req == map[] && t.Valid() && mm.Valid() && mm.Held() == map[]
    requires mm.glRanges == rl && (rl != null ==> rl.ranges == [])
    requires mm.layout.base == mm.lib.startBrk && mm.lib.brk == mm.lib.startBrk + PREAMBLE
    requires mm.lib.errno == 0 && Answerable(t.ops, mm.lib.maxAddr)
    ensures Running(t, mm, rl, req, 0) && Total(t.ops, 0) == SumOf(req, req.Keys) == 0
  {
    NothingYet(t, t.blocks[..], t.blockSizes[..]);
  }

  /** Unfollowed: a request would grow a block without room behind it, which mm_realloc does not serve. */
  datatype Verdict = Passed | Failed | Unfollowed

  /** REALLOC request stop is next, and mm_realloc as it is coded would not serve it. */
  ghost predicate StoppedAt(t: Trace, mm: Allocator, rl: RangeList?, req: map<int, int>, stop: nat)
    reads t.blocks, t.blockSizes, mm, mm.lib, mm.lib.cells, rl
  {
    && Running(t, mm, rl, req, stop) && stop < |t.ops| && t.ops[stop].Realloc? && !GrowsNot(t.ops, stop)
    && 0 <= t.ops[stop].index < t.blocks.Length && !Resizable(mm, t.blocks[t.ops[stop].index], t.ops[stop].size)
  }

  /** Every reallocation is of an id whose low byte a char can hold, and so is what its data is compared with. */
  predicate Readable(ops: seq<Request>) { ReadableUpTo(ops, |ops|) }

  predicate ReadableUpTo(ops: seq<Request>, n: int)
    requires n <= |ops|
  {
    forall i {:trigger ops[i]} :: 0 <= i < n && ops[i].Realloc? ==> ops[i].index % 256 < 128
  }

  /** One request of the replay; Unfollowed leaves everything as it was. */
  method ServeRequest(t: Trace, mm: Allocator, rl: RangeList, ghost req: map<int, int>, i: nat)
    returns (v: Verdict, ghost req': map<int, int>)
    requires Running(t, mm, rl, req, i) && i < |t.ops| && Separate(t, mm)
    modifies t.blocks, t.blockSizes, mm.lib.cells, mm`layout, mm.lib`brk, mm.lib`errno, rl
    ensures v == Passed ==> Running(t, mm, rl, req', i + 1) && (t.ops[i].Realloc? ==> t.ops[i].index % 256 < 128)
    ensures mm.lib.errno != 0 ==> v == Failed && PREAMBLE + Demand(t.ops, i + 1) > mm.lib.maxAddr - mm.lib.startBrk
    ensures v == Failed && mm.lib.errno == 0 ==> t.ops[i].Realloc? && t.ops[i].index % 256 >= 128
    ensures v == Unfollowed ==> StoppedAt(t, mm, rl, req', i)
  {
    hide Running, Demand, GrowsNot, Resizable;
    StillRunning(t, mm, rl, req, i);
    req' := req;
    match t.ops[i] {
      case Alloc(_, _) =>
        var ok;
        ok, req' := ServeAlloc(t, mm, rl, req, i);
        v := if ok then Passed else Failed;
      case Realloc(_, _) =>
        var fits := CanFollow(t, mm, rl, req, i);
        if !fits { return Unfollowed, req'; }
        var ok;
        ok, req' := ServeRealloc(t, mm, rl, req, i);
        v := if ok then Passed else Failed;
      case Free(_) =>
        req' := ServeFree(t, mm, rl, req, i);
        v := Passed;
        StillRunning(t, mm, rl, req', i + 1);
    }
  }

  /**
   * Replays a trace on a fresh heap and checks every payload, and the data after every
   * reallocation. Up to a request that would grow a block without room behind it, the allocator
   * passes unless memory runs out, or the driver's own comparison of data cannot succeed.
   */
  method EvalMmValid(t: Trace, mm: Allocator, rl: RangeList)
    returns (v: Verdict, ghost req: map<int, int>, ghost stop: nat)
    requires t.Valid() && Separate(t, mm) && mm.lib.Valid() && mm.lib.errno == 0
    requires Answerable(t.ops, mm.lib.maxAddr)
    modifies t.blocks, t.blockSizes, mm, mm.lib, mm.lib.cells, rl
    ensures mm.lib.errno != 0 ==>
      v == Failed && PREAMBLE + Demand(t.ops, |t.ops|) > mm.lib.maxAddr - mm.lib.startBrk
    ensures v == Failed && mm.lib.errno == 0 ==>
      stop < |t.ops| && t.ops[stop].Realloc? && t.ops[stop].index % 256 >= 128
    ensures v == Passed ==> Readable(t.ops)
    ensures v == Passed ==> rl.ranges == [] && mm.Valid() && mm.Held() == map[] && AllFree(mm.layout)
    ensures v == Unfollowed ==> StoppedAt(t, mm, rl, req, stop)
  {
    hide Holds, Keeps, Layout.Threaded, Layout.Classed, Layout.AllListed, Layout.Tiled, Coalesced, Records;
    hide Serving, Tracks, AllFree, Intact, Answerable, GrowsNot, Resizable, Running, Demand, TraceOk;
    req, stop := map[], 0;
    mm.lib.ResetBrk();
    rl.ClearRanges();
    DemandFrom(t, 0);
    var r := mm.Init(rl);
    if r < 0 { return Failed, req, stop; }

    FirstRequest(t, mm, rl, req);
    var i := 0;
    while i < |t.ops|
      invariant 0 <= i <= |t.ops| && Running(t, mm, rl, req, i) && ReadableUpTo(t.ops, i)
    {
      DemandFrom(t, i + 1);
      stop := i;
      v, req := ServeRequest(t, mm, rl, req, i);
      if v != Passed { return v, req, stop; }
      i := i + 1;
    }

    LastRequest(t, mm, rl, req);
    mm.Exit();
    return if |rl.ranges| == 0 then Passed else Failed, req, stop;
  }

  /**
   * On a trace that never grows a block, and whose demand fits the memory, the check succeeds if
   * and only if no reallocation is of an id whose low byte is 128 or more.
   */
  method EvalNeverGrowing(t: Trace, mm: Allocator, rl: RangeList) returns (valid: bool)
    requires t.Valid() && Separate(t, mm) && mm.lib.Valid() && mm.lib.errno == 0
    requires Answerable(t.ops, mm.lib.maxAddr)
    requires NeverGrows(t.ops) && PREAMBLE + Demand(t.ops, |t.ops|) <= mm.lib.maxAddr - mm.lib.startBrk
    modifies t.blocks, t.blockSizes, mm, mm.lib, mm.lib.cells, rl
    ensures valid <==> Readable(t.ops)
  {
    hide Running, Answerable, GrowsNot, Resizable, AllFree, Coalesced;
    var v, req, stop := EvalMmValid(t, mm, rl);
    return v == Passed;
  }

  /** While requests are served there is no error. */
  lemma StillRunning(t: Trace, mm: Allocator, rl: RangeList?, req: map<int, int>, i: nat)
    requires Running(t, mm, rl, req, i)
    ensures mm.lib.errno == 0
  {
  }

  lemma LastRequest(t: Trace, mm: Allocator, rl: RangeList, req: map<int, int>)
    requires Running(t, mm, rl, req, |t.ops|)
    ensures mm.Valid() && mm.glRanges == rl && mm.lib.errno == 0 && WithoutEach(rl.ranges, mm.Held().Keys) == []
  {
    AllRecorded(mm.layout.blocks, rl.ranges, req);
  }

  /** Two requests that this allocator serves, and the check reports as lost data: the fill byte is 128. */
  method DataCheckCanFail(mm: Allocator, rl: RangeList) returns (v: Verdict)
    requires mm.lib.Valid() && mm.lib.errno == 0 && mm.lib.startBrk + PREAMBLE + 128 <= mm.lib.maxAddr
    modifies mm, mm.lib, mm.lib.cells, rl
    ensures v == Failed && mm.lib.errno == 0
  {
    hide Running, AllFree, Coalesced, Resizable;
    var t := new Trace([Alloc(128, 8), Realloc(128, 8)], 129);
    assert !(t.ops[1].Realloc? ==> t.ops[1].index % 256 < 128);
    assert Demand(t.ops, 1) == 128 && Demand(t.ops, 2) == 128;
    assert InUse(t.ops, 1) == map[128 := 8];
    ghost var req, stop;
    v, req, stop := EvalMmValid(t, mm, rl);
  }

  lemma DemandFrom(t: Trace, i: nat)
    requires t.Valid() && i <= |t.ops|
    ensures 0 <= Demand(t.ops, i) <= Demand(t.ops, |t.ops|)
  {
    DemandGrows(t.ops, t.blocks.Length, 0, i);
    DemandGrows(t.ops, t.blocks.Length, i, |t.ops|);
  }

  lemma AllRecorded(bs: Blocks, rs: seq<Range>, req: map<int, int>)
    requires Serving(bs, req) && Records(rs, req)
    ensures WithoutEach(rs, Live(bs).Keys) == []
  {
    AllRemoved(rs, Live(bs).Keys);
  }

  /** One ALLOC request of the utilisation measurement: no checks, no fill. */
  method ServeAllocUnchecked(t: Trace, mm: Allocator, ghost req: map<int, int>, i: nat) returns (ok: bool,
      ghost req': map<int, int>)
    requires Running(t, mm, null, req, i) && i < |t.ops| && t.ops[i].Alloc? && Separate(t, mm)
    modifies t.blocks, t.blockSizes, mm.lib.cells, mm`layout, mm.lib`brk, mm.lib`errno
    ensures ok ==> Running(t, mm, null, req', i + 1) && old(mm.lib.brk) <= mm.lib.brk
    ensures ok ==> exists p :: p !in req && req' == req[p := t.ops[i].size]
    ensures ok <==> mm.lib.errno == 0
    ensures !ok ==> PREAMBLE + Demand(t.ops, i + 1) > mm.lib.maxAddr - mm.lib.startBrk
  {
    hide Holds, Keeps, Layout.Threaded, Layout.Classed, Layout.AllListed, Layout.Tiled, Coalesced, Tracks, Serving;
    var index, size := t.ops[i].index, t.ops[i].size;
    assert RequestOk(t.ops, t.blocks.Length, i);
    ghost var bs := mm.layout.blocks;
    req' := req;
    var p := mm.Malloc(size);
    if p == 0 { return false, req; }
    ServingMore(bs, mm.layout.blocks, req, p, size);
    TracksAlloc(t.blocks[..], t.blockSizes[..], InUse(t.ops, i), req, index, p, size);
    t.blocks[index] := p;
    t.blockSizes[index] := size;
    req' := req[p := size];
    ok := true;
  }

  /** One REALLOC request of the utilisation measurement. */
  method ServeReallocUnchecked(t: Trace, mm: Allocator, ghost req: map<int, int>, i: nat)
    returns (ghost req': map<int, int>)
    requires Running(t, mm, null, req, i) && i < |t.ops| && t.ops[i].Realloc? && Separate(t, mm)
    requires 0 <= t.ops[i].index < t.blocks.Length && Resizable(mm, t.blocks[t.ops[i].index], t.ops[i].size)
    modifies t.blocks, t.blockSizes, mm.lib.cells, mm`layout, mm.lib`brk, mm.lib`errno
    ensures Running(t, mm, null, req', i + 1) && old(mm.lib.brk) == mm.lib.brk
    ensures t.ops[i].index in InUse(t.ops, i)
    ensures
      var p, old_ := old(t.blocks[t.ops[i].index]), old(t.blockSizes[t.ops[i].index]);
      p in req && req[p] == InUse(t.ops, i)[t.ops[i].index] == old_ && req' == req[p := t.ops[i].size]
  {
    hide Holds, Keeps, Layout.Threaded, Layout.Classed, Layout.AllListed, Layout.Tiled, Coalesced, Serving;
    hide Resizable, Answerable, Stamped;
    var index, size := t.ops[i].index, t.ops[i].size;
    assert RequestOk(t.ops, t.blocks.Length, i);
    ghost var bs, blocks, sizes := mm.layout.blocks, t.blocks[..], t.blockSizes[..];
    TracksResize(blocks, sizes, InUse(t.ops, i), req, index, size);
    var oldp := t.blocks[index];
    StampNone(mm.View(), oldp, 0);
    ServingHeld(bs, req, oldp);
    HeldShape(mm.View(), mm.layout, oldp);
    var o := Resize(mm, oldp, size, 0, 0);
    var newp := o.value;
    ServingOther(bs, mm.layout.blocks, req, newp, size);
    t.blocks[index] := newp;
    t.blockSizes[index] := size;
    req' := req[newp := size];
    assert t.blocks[..] == blocks;
  }

  /** One request of the utilisation measurement, with its running total of bytes in use. */
  method ServeCounting(t: Trace, mm: Allocator, ghost req: map<int, int>, i: nat, total: int)
    returns (ok: bool, total': int, ghost req': map<int, int>)
    requires Running(t, mm, null, req, i) && i < |t.ops| && Separate(t, mm)
    requires t.ops[i].Realloc? ==>
      0 <= t.ops[i].index < t.blocks.Length && Resizable(mm, t.blocks[t.ops[i].index], t.ops[i].size)
    requires total == Total(t.ops, i) == SumOf(req, req.Keys)
    modifies t.blocks, t.blockSizes, mm.lib.cells, mm`layout, mm.lib`brk, mm.lib`errno
    ensures ok ==> Running(t, mm, null, req', i + 1) && old(mm.lib.brk) <= mm.lib.brk
    ensures ok ==> total' == Total(t.ops, i + 1) == SumOf(req', req'.Keys)
    ensures ok <==> mm.lib.errno == 0
    ensures !ok ==> PREAMBLE + Demand(t.ops, i + 1) > mm.lib.maxAddr - mm.lib.startBrk
  {
    hide Running, Resizable;
    RequestInRange(t, mm, req, i);
    ok, total', req' := true, total, req;
    match t.ops[i] {
      case Alloc(_, size) =>
        ok, req' := ServeAllocUnchecked(t, mm, req, i);
        if ok {
          ghost var p :| p !in req && req' == req[p := size];
          SumGains(req, p, size);
          total' := total + size;
        }
      case Realloc(index, newsize) =>
        var oldp, oldsize := t.blocks[index], t.blockSizes[index];
        req' := ServeReallocUnchecked(t, mm, req, i);
        SumChanges(req, oldp, newsize);
        total' := total + (newsize - oldsize);
        StillRunning(t, mm, null, req', i + 1);
      case Free(index) =>
        var size := t.blockSizes[index];
        req' := ServeFree(t, mm, null, req, i);
        SumLoses(req, t.blocks[index]);
        total' := total - size;
        StillRunning(t, mm, null, req', i + 1);
    }
  }

  lemma SumChanges(req: map<int, int>, p: int, v: int)
    requires p in req
    ensures SumOf(req[p := v], req[p := v].Keys) == SumOf(req, req.Keys) - req[p] + v
  {
    SumLoses(req, p);
    SumGains(req - {p}, p, v);
    assert (req - {p})[p := v] == req[p := v];
  }

  lemma RequestInRange(t: Trace, mm: Allocator, req: map<int, int>, i: nat)
    requires Running(t, mm, null, req, i) && i < |t.ops|
    ensures 0 <= t.ops[i].index < t.blocks.Length == t.blockSizes.Length
  {
    assert RequestOk(t.ops, t.blocks.Length, i);
  }

  /** Bytes in use never exceed the heap. */
  lemma InUseFits(m: Memory, l: Layout, req: map<int, int>)
    requires Holds(m, l) && Serving(l.blocks, req)
    ensures SumOf(req, req.Keys) <= l.brk - l.base && 0 < l.brk - l.base
  {
    forall p | p in req ensures p in l.blocks && req[p] <= l.blocks[p].size { assert p in Live(l.blocks).Keys; }
    RequestsFit(l.blocks, l.First(), l.brk, req);
  }

  lemma FitsNow(t: Trace, mm: Allocator, req: map<int, int>, i: nat)
    requires Running(t, mm, null, req, i)
    ensures SumOf(req, req.Keys) <= mm.lib.Size() && 0 < mm.lib.Size() && mm.lib.errno == 0
  {
    InUseFits(mm.View(), mm.layout, req);
  }

  /** No request allocates under an id that is in use. */
  ghost predicate FreshIds(ops: seq<Request>) {
    forall i {:trigger ops[i]} :: 0 <= i < |ops| && ops[i].Alloc? ==> ops[i].index !in InUse(ops, i)
  }

  /** The running total is the sum of the sizes in use, if no request allocates under an id in use. */
  lemma {:induction false} TotalIsInUse(ops: seq<Request>, numIds: int, i: nat)
    requires TraceOk(ops, numIds) && FreshIds(ops) && i <= |ops|
    ensures Total(ops, i) == SumOf(InUse(ops, i), InUse(ops, i).Keys)
  {
    if i > 0 {
      TotalIsInUse(ops, numIds, i - 1);
      assert RequestOk(ops, numIds, i - 1);
      var before := InUse(ops, i - 1);
      match ops[i - 1]
      case Alloc(index, size) => SumGains(before, index, size);
      case Realloc(index, size) => SumChanges(before, index, size);
      case Free(index) => SumLoses(before, index);
    }
  }

  /** The highest number of bytes in use at a time, over the size the heap has grown to. */
  method EvalMmUtil(t: Trace, mm: Allocator)
    returns (v: Verdict, util: real, ghost req: map<int, int>, ghost stop: nat)
    requires t.Valid() && Separate(t, mm) && mm.lib.Valid() && mm.lib.errno == 0
    requires Answerable(t.ops, mm.lib.maxAddr)
    modifies t.blocks, t.blockSizes, mm, mm.lib, mm.lib.cells
    ensures v == Failed <==> mm.lib.errno != 0
    ensures v == Failed ==> PREAMBLE + Demand(t.ops, |t.ops|) > mm.lib.maxAddr - mm.lib.startBrk
    ensures v == Passed ==>
      mm.lib.Size() > 0 && exists i :: Highest(t.ops, |t.ops|, i) && util == Ratio(Total(t.ops, i), mm.lib.Size())
    ensures v == Passed ==> 0.0 <= util <= 1.0
    ensures v == Unfollowed ==> StoppedAt(t, mm, null, req, stop)
  {
    hide Holds, Keeps, Layout.Threaded, Layout.Classed, Layout.AllListed, Layout.Tiled, Coalesced, Serving, Tracks;
    hide Answerable, Resizable, GrowsNot, Intact, Records, Running, SumOf, Total, Demand, TraceOk, Highest;
    mm.lib.ResetBrk();
    DemandFrom(t, 0);
    util, req, stop := 0.0, map[], 0;
    var r := mm.Init(null);
    if r < 0 { return Failed, util, req, stop; }

    FirstRequest(t, mm, null, req);
    FitsNow(t, mm, req, 0);
    var total, maxTotal := 0, 0;
    var i := 0;
    while i < |t.ops|
      invariant 0 <= i <= |t.ops| && Running(t, mm, null, req, i)
      invariant total == Total(t.ops, i) == SumOf(req, req.Keys)
      invariant maxTotal == HighWater(t.ops, i) && 0 <= maxTotal <= mm.lib.Size()
      invariant 0 < mm.lib.Size() && mm.lib.errno == 0
    {
      DemandFrom(t, i + 1);
      stop := i;
      if t.ops[i].Realloc? {
        var fits := CanFollow(t, mm, null, req, i);
        if !fits { return Unfollowed, util, req, stop; }
      }
      var ok;
      ok, total, req := ServeCounting(t, mm, req, i, total);
      if !ok { return Failed, util, req, stop; }
      FitsNow(t, mm, req, i + 1);
      if !t.ops[i].Free? && total > maxTotal { maxTotal := total; }
      i := i + 1;
    }
    util := Ratio(maxTotal, mm.lib.Size());
    ghost var peak := HighWaterHighest(t.ops, t.blocks.Length, |t.ops|);
    RatioAtMostOne(maxTotal, mm.lib.Size());
    return Passed, util, req, stop;
  }

  function Ratio(x: int, y: int): real
    requires y != 0
  {
    x as real / y as real
  }

  lemma RatioAtMostOne(x: int, y: int)
    requires 0 <= x <= y && 0 < y
    ensures 0.0 <= Ratio(x, y) <= 1.0
  {
  }
}
