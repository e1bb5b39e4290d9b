/** The segregated-fit allocator. */
module Allocators {
  import opened SizeClasses
  import opened Sizing
  import opened Tags
  import opened Blocks
  import opened Rings
  import opened Layouts
  import opened Heaps
  import opened Coalescing
  import opened Merging
  import opened Freeing
  import opened Extending
  import opened Fitting
  import opened Placing
  import opened Starting
  import opened Walking
  import opened Listings
  import opened Relisting
  import opened Payloads
  import opened Guards
  import opened Machine
  import Regrowing
  import Shrinking
  import Overgrowing
  import opened Checking
  import MemLib
  import Ranges

  function Min(x: int, y: int): int { if x > y then y else x }

  class Allocator {
    const lib: MemLib.Heap
    var sizeClassP: int
    var prologue: int
    var glRanges: Ranges.RangeList?

    /** The blocks and lists that the heap's words encode. */
    ghost var layout: Layout

    /** Before mm_init: zero-initialised static variables. */
    constructor (heap: MemLib.Heap)
      ensures lib == heap && glRanges == null
    {
      lib := heap;
      sizeClassP, prologue, glRanges := 0, 0, null;
      layout := Layout(0, 0, map[], map[], []);
    }

    ghost function View(): Memory
      reads lib.cells
    {
      lib.cells[..]
    }

    /** Memory holds the layout, whose end the break may already have passed. */
    ghost predicate Linkable()
      reads this, lib, lib.cells
    {
      && lib.Valid()
      && layout.base == sizeClassP && layout.brk <= lib.brk && lib.startBrk <= sizeClassP
      && prologue == sizeClassP + 264
      && Holds(View(), layout)
    }

    /** Memory holds the layout, up to the break. */
    ghost predicate Sound()
      reads this, lib, lib.cells
    {
      Linkable() && layout.brk == lib.brk
    }

    /** The allocator's invariant: every free block is listed once, in a fitting class, and touches no other. */
    ghost predicate Valid()
      reads this, lib, lib.cells
    {
      Sound() && layout.AllListed() && layout.Classed() && Coalesced(layout.blocks)
    }

    /** The blocks handed out and not yet freed. */
    ghost function Held(): Blocks
      reads this
    {
      Live(layout.blocks)
    }

    function Get(p: int): MemLib.Word
      requires lib.Valid() && lib.startBrk <= sizeClassP && IsWord(sizeClassP, lib.brk, p)
      reads this, lib, lib.cells
    {
      lib.cells[p]
    }

    method Put(p: int, v: MemLib.Word)
      requires lib.Valid() && lib.startBrk <= sizeClassP && IsWord(sizeClassP, lib.brk, p)
      modifies lib.cells
      ensures View() == old(View())[p := v]
    {
      lib.cells[p] := v;
    }

    function GetClassRoot(c: int): int
      reads this
    {
      sizeClassP + 8 * c
    }

    /** mm_init: sets up roots, prologue and epilogue at the current break. */
    method Init(ranges: Ranges.RangeList?) returns (r: int)
      requires lib.Valid() && lib.brk % 8 == 0
      modifies this, lib.cells, lib`brk, lib`errno
      ensures r == if old(lib.brk) + PREAMBLE <= lib.maxAddr then 0 else -1
      ensures r == 0 ==>
        && Valid() && layout == EmptyLayout(old(lib.brk)) && lib.brk == old(lib.brk) + PREAMBLE
        && glRanges == ranges && lib.errno == old(lib.errno)
      ensures r != 0 ==> lib.brk == old(lib.brk) && View() == old(View()) && lib.errno == MemLib.ENOMEM
    {
      hide IsWord, Pack, SizeOf, RootsLinked;
      sizeClassP := lib.Sbrk((SIZE_CLASS_NUM + 2) * 8);
      if sizeClassP == MemLib.SBRK_FAILED { return -1; }

      var i := 0;
      NoRootsYet(View(), sizeClassP);
      while i < SIZE_CLASS_NUM
        modifies lib.cells
        invariant 0 <= i <= SIZE_CLASS_NUM
        invariant RootsLinked(View(), sizeClassP, i)
      {
        ghost var m := View();
        var temp := sizeClassP + i * 8;
        RootWords(sizeClassP, lib.brk, i);
        Put(temp, temp);
        Put(temp + 4, temp);
        RootLinked(m, sizeClassP, i);
        i := i + 1;
      }

      ghost var m := View();
      prologue := sizeClassP + (SIZE_CLASS_NUM + 1) * 8;
      RootWords(sizeClassP, lib.brk, SIZE_CLASS_NUM);
      RootWords(sizeClassP, lib.brk, SIZE_CLASS_NUM + 1);
      FencePacks();
      SetBoundaryTag(prologue, 8, ALLOCTAG);
      Put(prologue + 4, Pack(0, ALLOCTAG));
      FencedRoots(m, sizeClassP);
      layout := EmptyLayout(sizeClassP);
      EmptyHolds(View(), sizeClassP);
      glRanges := ranges;
      return 0;
    }

    /** Links bp in front of the list of asize's class. */
    method InsertBlock(bp: int, asize: int)
      requires Sound() && IsFree(layout.blocks, bp) && bp !in layout.cls
      modifies lib.cells, this`layout
      ensures Sound()
      ensures old(layout).RingAt(GetSizeClass(asize)) && layout == old(layout).Insert(bp, GetSizeClass(asize))
      ensures Keeps(old(View()), View(), Live(layout.blocks))
      ensures SameWords(old(View()), View(), bp + 8, End(layout.blocks, bp) - 8)
    {
      hide Holds, Keeps, GetSizeClass, IsWord;
      ghost var c := GetSizeClass(asize);
      InsertAccess(View(), layout, bp, c);
      InsertHolds(View(), layout, bp, c);
      InsertInterior(View(), layout, bp, c);
      var sclassp := GetClassRoot(GetSizeClass(asize));
      Put(bp + 4, sclassp);
      Put(bp, Get(sclassp));
      Put(Get(sclassp) + 4, bp);
      Put(sclassp, bp);
      layout := layout.Insert(bp, c);
    }

    /** Unlinks bp from the list it is in. */
    method RemoveFromList(bp: int)
      requires Linkable() && bp in layout.cls
      modifies lib.cells, this`layout
      ensures Linkable()
      ensures old(layout).ListedAt(bp) && layout == old(layout).Remove(bp) == Unlist(old(layout), {bp})
      ensures Keeps(old(View()), View(), Live(layout.blocks))
    {
      hide Holds, Keeps, IsWord, WordPair;
      RemoveAccess(View(), layout, bp);
      PairGrows(layout, bp, lib.brk);
      PairGrows(layout, Get(bp), lib.brk);
      PairGrows(layout, Get(bp + 4), lib.brk);
      RemoveHolds(View(), layout, bp);
      HoldsTiled(View(), layout);
      RemoveIsUnlist(layout, bp);
      Put(Get(bp + 4), Get(bp));
      Put(Get(bp) + 4, Get(bp + 4));
      layout := layout.Remove(bp);
    }

    function SizeAt(p: int): int
      requires lib.Valid() && lib.startBrk <= sizeClassP && IsWord(sizeClassP, lib.brk, p)
      reads this, lib, lib.cells
    {
      SizeOf(Get(p))
    }

    /** Writes size and tag bits to both ends of the block at bp. */
    method SetBoundaryTag(bp: int, asize: int, tag: int)
      requires lib.Valid() && lib.startBrk <= sizeClassP
      requires IsWord(sizeClassP, lib.brk, bp - 4) && IsWord(sizeClassP, lib.brk, bp + asize - 8)
      requires asize % 8 == 0 && 0 <= asize && 0 <= tag < 4
      modifies lib.cells
      ensures View() == old(View())[bp - 4 := Pack(asize, tag)][bp + asize - 8 := Pack(asize, tag)]
    {
      hide IsWord, SizeOf;
      SizeDecodes(asize, tag);
      WordBounds(sizeClassP, lib.brk, bp - 4);
      WordBounds(sizeClassP, lib.brk, bp + asize - 8);
      Put(bp - 4, Pack(asize, tag));
      Put(bp + SizeAt(bp - 4) - 8, Pack(asize, tag));
    }

    function NextBlkp(bp: int): int
      requires lib.Valid() && lib.startBrk <= sizeClassP && IsWord(sizeClassP, lib.brk, bp - 4)
      reads this, lib, lib.cells
    {
      bp + SizeAt(bp - 4)
    }

    function PrevBlkp(bp: int): int
      requires lib.Valid() && lib.startBrk <= sizeClassP && IsWord(sizeClassP, lib.brk, bp - 8)
      reads this, lib, lib.cells
    {
      bp - SizeAt(bp - 8)
    }

    /** The step of Coalesce for the next block: unlists it if it is free and returns its size. */
    method DetachNext(bp: int, nextAlloc: bool) returns (size: int)
      requires Sound() && bp in layout.blocks
      requires var e := End(layout.blocks, bp); nextAlloc == !IsFree(layout.blocks, e) && (nextAlloc || e in layout.cls)
      modifies lib.cells, this`layout
      ensures Sound() && layout.brk == old(layout).brk
      ensures
        bp in layout.blocks && var e := End(layout.blocks, bp);
        && Unlisted(old(layout), layout, if nextAlloc then {} else {e})
        && layout == Unlist(old(layout), if nextAlloc then {} else {e})
        && size == (if nextAlloc then 0 else layout.blocks[e].size)
      ensures Keeps(old(View()), View(), Live(layout.blocks))
    {
      hide Holds, Keeps, IsWord, SizeOf, IsAlloc, BulkBit;
      KeepsSame(View(), Live(layout.blocks));
      UnlistNone(layout);
      size := 0;
      if !nextAlloc {
        ReadBlock(View(), layout, bp);
        ReadNext(View(), layout, bp);
        var nextbp := NextBlkp(bp);
        size := SizeAt(nextbp - 4);
        RemoveFromList(nextbp);
      }
    }

    /** The step of Coalesce for the previous block: unlists it if it is free and moves to it. */
    method DetachPrev(bp0: int, prevAlloc: bool) returns (bp: int, size: int)
      requires Sound() && bp0 in layout.blocks && prevAlloc == !HasFreeLeft(layout.blocks, bp0)
      requires prevAlloc || FreeLeft(layout.blocks, bp0) in layout.cls
      modifies lib.cells, this`layout
      ensures Sound() && layout.brk == old(layout).brk
      ensures Unlisted(old(layout), layout, if prevAlloc then {} else {bp})
      ensures layout == Unlist(old(layout), if prevAlloc then {} else {bp})
      ensures bp == JoinedStart(old(layout).blocks, bp0)
      ensures bp in layout.blocks && size == if prevAlloc then 0 else layout.blocks[bp].size
      ensures Keeps(old(View()), View(), Live(layout.blocks))
    {
      hide Holds, Keeps, IsWord, SizeOf, IsAlloc, BulkBit;
      KeepsSame(View(), Live(layout.blocks));
      UnlistNone(layout);
      bp, size := bp0, 0;
      if !prevAlloc {
        ReadPrev(View(), layout, bp);
        LeftIsSeen(View(), layout, bp);
        bp := PrevBlkp(bp);
        RemoveFromList(bp);
        ReadBlock(View(), layout, bp);
        size := SizeAt(bp - 4);
      }
    }

    /** Takes bp and its free neighbours out of their lists: they will become one block. */
    method Gather(bp0: int, prevAlloc: bool, nextAlloc: bool) returns (bp: int, size: int)
      requires Sound() && layout.AllListed()
      requires IsFree(layout.blocks, bp0) && CoalescedBut(layout.blocks, bp0)
      requires prevAlloc == !HasFreeLeft(layout.blocks, bp0)
      requires nextAlloc == !IsFree(layout.blocks, End(layout.blocks, bp0))
      modifies lib.cells, this`layout
      ensures Sound() && bp0 in layout.blocks && Unlisted(old(layout), layout, Joined(layout.blocks, bp0))
      ensures layout == Unlist(old(layout), Joined(layout.blocks, bp0))
      ensures bp == JoinedStart(layout.blocks, bp0)
      ensures bp in MergeAround(layout.blocks, bp0) && size == MergeAround(layout.blocks, bp0)[bp].size
      ensures Keeps(old(View()), View(), Live(layout.blocks))
    {
      hide Holds, Keeps, IsWord, SizeOf, IsAlloc, BulkBit, Layout.Threaded, Layout.Tiled;
      hide MergeAround, HasFreeLeft, CoalescedBut, Block.Word;
      ghost var l, m := layout, View();
      HoldsTiled(m, l);
      JoinedParts(l, bp0);
      ReadBlock(m, l, bp0);
      size := SizeAt(bp0 - 4);
      RemoveFromList(bp0);
      ghost var m1 := View();
      var nextSize := DetachNext(bp0, nextAlloc);
      ghost var m2 := View();
      KeepsTrans(m, m1, m2, Live(l.blocks), Live(l.blocks));
      var prevSize;
      bp, prevSize := DetachPrev(bp0, prevAlloc);
      size := size + nextSize + prevSize;
      KeepsTrans(m, m2, View(), Live(l.blocks), Live(l.blocks));
      GatheredUnlist(l, bp0);
    }

    /** Whether the blocks on both sides of bp are allocated, from the footer before it and the header after it. */
    method ReadNeighbours(bp: int) returns (prevAlloc: bool, nextAlloc: bool)
      requires Sound() && bp in layout.blocks
      ensures prevAlloc == !HasFreeLeft(layout.blocks, bp)
      ensures nextAlloc == !IsFree(layout.blocks, End(layout.blocks, bp))
    {
      hide Holds, IsWord, SizeOf, IsAlloc, BulkBit, HasFreeLeft, Block.Word;
      ReadBlock(View(), layout, bp);
      ReadNext(View(), layout, bp);
      ReadPrev(View(), layout, bp);
      LeftIsSeen(View(), layout, bp);
      prevAlloc := IsAlloc(Get(PrevBlkp(bp) + SizeAt(PrevBlkp(bp) - 4) - 8));
      nextAlloc := IsAlloc(Get(NextBlkp(bp) - 4));
    }

    /** Joins free block bp0 with its free neighbours and lists the result by its size. */
    method Coalesce(bp0: int) returns (bp: int)
      requires Sound() && layout.AllListed() && layout.Classed()
      requires IsFree(layout.blocks, bp0) && CoalescedBut(layout.blocks, bp0)
      modifies lib.cells, this`layout
      ensures Sound() && layout.AllListed() && layout.Classed()
      ensures layout.blocks == MergeAround(old(layout).blocks, bp0) && layout.base == old(layout).base
      ensures Coalesced(layout.blocks) && Live(layout.blocks) == Live(old(layout).blocks)
      ensures bp == JoinedStart(old(layout).blocks, bp0)
      ensures layout == Rejoined(old(layout), bp0)
      ensures LeavesHeaders(old(View()), View(), old(layout).blocks, bp0)
      ensures Keeps(old(View()), View(), Live(layout.blocks))
    {
      hide Holds, Keeps, IsWord, GetSizeClass, Layout.Threaded, Layout.Tiled, Layout.Classed, Layout.AllListed;
      hide MergeAround, HasFreeLeft, CoalescedBut, Block.Word, SameWords;
      bp := bp0;
      ghost var l, m := layout, View();
      HoldsTiled(m, l);
      JoinedParts(l, bp);
      KeepsSame(m, Live(l.blocks));
      var prevAlloc, nextAlloc := ReadNeighbours(bp);
      if prevAlloc && nextAlloc { return; }

      var size;
      bp, size := Gather(bp, prevAlloc, nextAlloc);
      ghost var l3, m3, bs := layout, View(), MergeAround(l.blocks, bp0);
      MergeReady(m, l, m3, l3, bp0);
      SetBoundaryTag(bp, size, FREETAG);
      layout := layout.(blocks := bs);
      ghost var m4 := View();
      InsertBlock(bp, size);
      KeepsTrans(m, m4, View(), Live(l.blocks), Live(l.blocks));
      HoldsTiled(m3, l3);
      MergeSettles(l, l3, bp0, GetSizeClass(size));
      RingCount(l3);
      RejoinedIs(l, bp0, GetSizeClass(size));
      MergeLeavesHeaders(m, l, m3, l3, bp0, View());
    }

    /** mm_free. */
    method Free(ptr: int)
      requires Valid() && ptr in Held()
      modifies lib.cells, this`layout, if glRanges == null then {} else {glRanges}
      ensures Valid()
      ensures Held() == old(Held()) - {ptr} && Keeps(old(View()), View(), Held())
      ensures glRanges != null ==> glRanges.ranges == Ranges.Without(old(glRanges.ranges), ptr)
      ensures
        var bs := Freed(old(layout).blocks, ptr);
        && layout.blocks == MergeAround(bs, ptr) && layout.base == old(layout).base
        && StaleHeaders(old(View()), View(), bs, ptr)
      ensures layout == Released(old(layout), ptr) && layout.blocks == Joining(old(layout).blocks, ptr)
      ensures
        var bs := old(layout).blocks;
        !HasFreeLeft(bs, ptr) && !IsFree(bs, End(bs, ptr)) ==>
          layout.blocks == bs[ptr := Block(bs[ptr].size, false, bs[ptr].bulk)]
      ensures
        var bs := Freed(old(layout).blocks, ptr);
        var r := JoinedStart(bs, ptr);
        r in layout.blocks
          && HeadsList(old(layout), layout, Joined(bs, ptr) - {ptr}, r, GetSizeClass(layout.blocks[r].size))
      ensures forall asize {:trigger CanFit(asize)} :: 0 < asize <= old(Held())[ptr].size ==> CanFit(asize)
    {
      hide Holds, Keeps, IsWord, SizeOf, IsAlloc, BulkBit, Pack, GetSizeClass, GetLowerBound, Layout.Threaded;
      hide Layout.Tiled, Layout.Classed, Layout.AllListed;
      hide MergeAround, HasFreeLeft, CoalescedBut, Block.Word, SameWords, Coalesced, LeavesHeaders, StaleHeaders;
      hide HeadsList, Released, NoneFits, Joining;
      ghost var l, m := layout, View();
      ghost var bs := Freed(l.blocks, ptr);
      FreeReady(m, l, ptr);
      var size := SizeAt(ptr - 4);
      SetBoundaryTag(ptr, size, BulkBit(Get(ptr - 4)));
      layout := layout.(blocks := bs);
      ghost var m1 := View();
      InsertBlock(ptr, size);
      HoldsTiled(m, l);
      RingCount(l);
      ReleasedIs(l, ptr, GetSizeClass(size));
      FreeListed(l, ptr, GetSizeClass(size));
      FreedBlocks(l, ptr);
      ReleasedLists(l, ptr);
      ReleasedBlocks(l, ptr);
      ghost var l2, m2 := layout, View();
      var _ := Coalesce(ptr);
      FreeStale(m, l, m2, l2, ptr, View());
      KeepsTrans(m, m1, m2, Live(bs), Live(bs));
      KeepsTrans(m, m2, View(), Live(bs), Live(bs));
      forall asize {:trigger CanFit(asize)} | 0 < asize <= size ensures CanFit(asize) { ReleasedFits(l, ptr, asize); }
      if glRanges != null { glRanges.RemoveRange(ptr); }
    }

    /** Whether mem_sbrk can serve n more bytes. */
    ghost predicate HasRoom(n: int)
      reads lib
    {
      n < 0x8000_0000 && n <= lib.maxAddr - lib.brk
    }

    /**
     * The test in mem_sbrk can tell whether n more bytes fit: as an int n is negative, or its sum
     * with the break does not wrap.
     */
    ghost predicate Testable(n: int)
      reads lib
    {
      n >= 0x8000_0000 || lib.brk + n < WORD_LIMIT
    }

    /** Grows the heap by asize bytes, as one free block joined with a free block before it. */
    method ExtendHeap(asize: int) returns (bp: int)
      requires Valid() && 16 <= asize < WORD_LIMIT && asize % 8 == 0 && Testable(asize)
      modifies lib.cells, this`layout, lib`brk, lib`errno
      ensures !old(HasRoom(asize)) ==>
        bp == 0 && lib.errno == MemLib.ENOMEM && layout == old(layout) && View() == old(View())
          && lib.brk == old(lib.brk)
      ensures old(HasRoom(asize)) ==>
        && bp != 0 && lib.errno == old(lib.errno) && lib.brk == old(lib.brk) + asize
        && IsFree(layout.blocks, bp) && layout.blocks[bp].size >= asize && !layout.blocks[bp].bulk
        && bp == PlainAt(old(layout), asize) && layout == PlainGrown(old(layout), asize)
      ensures Valid() && layout.base == old(layout).base
      ensures Held() == old(Held()) && Keeps(old(View()), View(), Held())
    {
      hide Holds, Keeps, IsWord, SizeOf, IsAlloc, BulkBit, GetSizeClass, GetLowerBound, Layout.Threaded;
      hide Layout.Classed, Layout.AllListed, Layout.Tiled;
      hide MergeAround, HasFreeLeft, CoalescedBut, CoalescedInto, Block.Word, SameWords, Coalesced, LeavesHeaders;
      hide Rejoined, PlainGrown;
      ghost var l, m := layout, View();
      KeepsSame(m, Live(l.blocks));
      RingCount(l) by { HoldsTiled(m, l); }
      bp := lib.Sbrk(AsInt(asize));
      if bp == MemLib.SBRK_FAILED { return 0; }
      ghost var p := bp;
      ghost var bs := l.blocks[bp := Block(asize, false, false)];
      ExtendReady(m, l, asize, lib.brk);
      SetBoundaryTag(bp, asize, FREETAG);
      Put(NextBlkp(bp) - 4, Pack(0, ALLOCTAG));
      layout := l.(blocks := bs, brk := lib.brk);
      ghost var l1, m1 := layout, View();
      InsertBlock(bp, asize);
      ghost var l2, m2 := layout, View();
      KeepsTrans(m, m1, m2, Live(l.blocks), Live(l.blocks));
      bp := Coalesce(bp);
      KeepsTrans(m, m2, View(), Live(l.blocks), Live(l.blocks));
      ExtendResult(l2, p);
      PlainGrownIs(l, asize, GetSizeClass(asize));
    }

    /**
     * The step of ExtendHeapBulk that looks at the block before the old break: if it is free
     * and not bulk, it leaves its list and the new block starts there.
     */
    method DetachPlainPrev(oldBrk: int, bulksize: int) returns (bp: int, size: int)
      requires Linkable() && oldBrk == layout.brk && layout.AllListed()
      modifies lib.cells, this`layout
      ensures Linkable() && BulkStart(old(layout), layout, bulksize, bp, size)
      ensures bp == BulkAt(old(layout)) && size == bulksize + oldBrk - bp
      ensures layout == Unlist(old(layout), if EndsPlain(old(layout)) then {bp} else {})
      ensures Keeps(old(View()), View(), Live(old(layout).blocks))
    {
      hide Holds, Keeps, IsWord, SizeOf, IsAlloc, BulkBit, EndsPlain, Unlist;
      ghost var l := layout;
      KeepsSame(View(), Live(l.blocks));
      ReadPrev(View(), l, oldBrk);
      EndIsSeen(View(), l);
      UnlistNone(l);
      WordGrows(l.base, l.brk, lib.brk, oldBrk - 8);
      bp, size := oldBrk, bulksize;
      var prevbp := PrevBlkp(oldBrk);
      WordGrows(l.base, l.brk, lib.brk, prevbp - 4);
      if !IsAlloc(Get(prevbp - 4)) && BulkBit(Get(prevbp - 4)) == FREETAG {
        bp := prevbp;
        RemoveFromList(bp);
        ReadBlock(View(), layout, bp);
        WordGrows(l.base, l.brk, lib.brk, bp - 4);
        size := bulksize + SizeAt(bp - 4);
      }
    }

    /**
     * Grows the heap by eight times asize, as one bulk block listed in the class of asize only.
     * A bulk block before it stays as it is: the one case where free blocks touch.
     */
    method ExtendHeapBulk(asize: int) returns (bp: int)
      requires Valid() && 16 <= asize <= CHUNKSIZE && asize % 8 == 0
      modifies lib.cells, this`layout, lib`brk, lib`errno
      ensures !old(HasRoom(8 * asize)) ==>
        bp == 0 && lib.errno == MemLib.ENOMEM && layout == old(layout) && View() == old(View())
          && lib.brk == old(lib.brk)
      ensures old(HasRoom(8 * asize)) ==>
        && bp != 0 && lib.errno == old(lib.errno) && lib.brk == old(lib.brk) + 8 * asize
        && IsFree(layout.blocks, bp) && layout.blocks[bp].size >= 8 * asize
        && bp in layout.cls && layout.cls[bp] == GetSizeClass(asize) && GetLowerBound(layout.cls[bp]) < asize
        && CoalescedInto(layout.blocks, bp)
        && bp == BulkAt(old(layout)) && layout == BulkGrown(old(layout), asize)
      ensures Sound() && layout.AllListed() && layout.Classed() && layout.base == old(layout).base
      ensures Held() == old(Held()) && Keeps(old(View()), View(), Held())
    {
      hide Holds, Keeps, IsWord, SizeOf, IsAlloc, BulkBit, GetSizeClass, GetLowerBound, Layout.Threaded;
      hide Layout.Classed, Layout.AllListed, Layout.Tiled;
      hide CoalescedInto, Block.Word, SameWords, Coalesced, Unlist, EndsPlain, BulkAt, BulkGrown;
      ghost var l0, m0 := layout, View();
      KeepsSame(m0, Live(l0.blocks));
      HoldsTiled(m0, l0);
      RingCount(l0);
      var bulksize := BULK_CREATE_NUM * asize;
      bp := lib.Sbrk(AsInt(bulksize));
      if bp == MemLib.SBRK_FAILED { return 0; }

      bp, bulksize := DetachPlainPrev(bp, bulksize);
      ghost var l1, m1 := layout, View();
      BulkReady(l0, m1, l1, asize, bp, Block(bulksize, false, true), lib.brk);
      SetBoundaryTag(bp, bulksize, BULKTAG);
      Put(NextBlkp(bp) - 4, Pack(0, ALLOCTAG));
      layout := l1.(blocks := l0.blocks[bp := Block(bulksize, false, true)], brk := lib.brk);
      KeepsTrans(m0, m1, View(), Live(l0.blocks), Live(l0.blocks));
      ghost var m2 := View();
      InsertBlock(bp, asize);
      BulkGrownIs(l0, asize, bulksize, GetSizeClass(asize));
      KeepsTrans(m0, m2, View(), Live(l0.blocks), Live(l0.blocks));
    }

    /** First fit within the request's class, then in ever higher classes. */
    method FindFit(asize: int) returns (bp: int, class_: int)
      requires Sound() && 0 < asize
      ensures bp == 0 ==> NoneFits(layout, GetSizeClass(asize), SIZE_CLASS_NUM, asize)
      ensures bp != 0 ==> FirstFit(layout, bp, class_, GetSizeClass(asize), asize)
    {
      hide Holds, IsWord, SizeOf, GetSizeClass, Layout.Threaded;
      HoldsTiled(View(), layout);
      assert |layout.rings| == SIZE_CLASS_NUM by { RingCount(layout); }
      var classnum := GetSizeClass(asize);
      while classnum < SIZE_CLASS_NUM
        invariant GetSizeClass(asize) <= classnum <= SIZE_CLASS_NUM
        invariant NoneFits(layout, GetSizeClass(asize), classnum, asize)
      {
        var sclassp := GetClassRoot(classnum);
        assert |layout.rings[classnum]| >= 2 by { RingShape(layout, classnum); }
        WalkRing(View(), layout, classnum, 0);
        var probe := Get(sclassp);
        ghost var k := 1;
        while probe != sclassp
          invariant 0 < k < |layout.rings[classnum]| && probe == layout.rings[classnum][k]
          invariant probe == sclassp <==> k == |layout.rings[classnum]| - 1
          invariant PrefixTooSmall(layout, classnum, k, asize)
          decreases |layout.rings[classnum]| - k
        {
          NodeBlock(View(), layout, classnum, k);
          if SizeAt(probe - 4) >= asize {
            return probe, classnum;
          }
          WalkRing(View(), layout, classnum, k);
          probe := Get(probe);
          k := k + 1;
        }
        WalkedRing(layout, GetSizeClass(asize), classnum, asize);
        classnum := classnum + 1;
      }
      return 0, 0;
    }

    /**
     * Serves a request of asize bytes from free block bp. If bp is bulk and enough of it is
     * left over, the rest takes bp's place in the list; otherwise it is listed by its size.
     */
    method Place(bp: int, asize: int, class_: int)
      requires Sound() && layout.AllListed() && layout.Classed() && CoalescedInto(layout.blocks, bp)
      requires IsFree(layout.blocks, bp) && layout.blocks[bp].size >= asize && 16 <= asize && asize % 8 == 0
      requires bp in layout.cls && layout.blocks[bp].bulk ==>
        var rest := layout.blocks[bp].size - asize;
        rest > GetLowerBound(class_) ==> rest > GetLowerBound(layout.cls[bp])
      modifies lib.cells, this`layout
      ensures Valid() && layout.brk == old(layout).brk && layout.base == old(layout).base
      ensures bp in layout.blocks && Serves(layout.blocks[bp], asize)
      ensures layout == Placed(old(layout), bp, asize, class_)
      ensures
        var l, q, rest := old(layout), bp + asize, old(layout).blocks[bp].size - asize;
        if l.blocks[bp].bulk && rest >= 16 && rest > GetLowerBound(class_) then
          && layout.blocks == l.blocks[bp := Block(asize, true, true)][q := Block(rest, false, true)]
          && layout.cls == (l.cls - {bp})[q := l.cls[bp]]
        else if rest >= 16 then
          && layout.blocks == l.blocks[bp := Block(asize, true, false)][q := Block(rest, false, false)]
          && HeadsList(l, layout, {bp}, q, GetSizeClass(rest))
        else
          layout.blocks == l.blocks[bp := Block(l.blocks[bp].size, true, false)] && layout.cls == l.cls - {bp}
      ensures Held() == old(Held())[bp := layout.blocks[bp]]
      ensures Keeps(old(View()), View(), old(Held()))
    {
      hide Holds, Keeps, IsWord, SizeOf, IsAlloc, BulkBit, GetSizeClass, GetLowerBound, Layout.Threaded;
      hide Layout.Classed, Layout.Tiled;
      hide CoalescedInto, Block.Word, SameWords, Coalesced, Unlist, Enlist, HeadsList;
      ghost var l, m := layout, View();
      ReadBlock(m, l, bp);
      HoldsTiled(m, l);
      var bsize := SizeAt(bp - 4);
      PlacedExactly(l, bp, asize, class_);
      if bsize - asize >= MIN_BLOCK_SIZE {
        if BulkBit(Get(bp - 4)) != FREETAG && bsize - asize > GetLowerBound(class_) {
          PlaceInList(bp, asize);
        } else {
          PlaceSplit(bp, asize);
        }
      } else {
        RemoveFromList(bp);
        WholeDone(l, View(), layout, bp);
        ghost var m1 := View();
        SetBoundaryTag(bp, bsize, ALLOCTAG);
        layout := layout.(blocks := l.blocks[bp := Block(bsize, true, false)]);
        KeepsTrans(m, m1, View(), Live(l.blocks), Live(l.blocks));
      }
    }

    /** Puts the block behind bp, whose size bp's header gives, in bp's place between bp's list neighbours. */
    method Relink(bp: int)
      requires lib.Valid() && lib.startBrk <= sizeClassP
      requires IsWord(sizeClassP, lib.brk, bp - 4) && IsWord(sizeClassP, lib.brk, bp)
        && IsWord(sizeClassP, lib.brk, bp + 4)
      requires
        var q, next, prev := NextBlkp(bp), Get(bp), Get(bp + 4);
        && 4 <= bp && bp + 16 <= q < lib.brk && 0 <= prev < lib.brk && 0 <= next < lib.brk
        && IsWord(sizeClassP, lib.brk, q) && IsWord(sizeClassP, lib.brk, q + 4)
        && IsWord(sizeClassP, lib.brk, prev) && IsWord(sizeClassP, lib.brk, next + 4)
        && (prev + 16 <= bp || q <= prev) && (next + 16 <= bp || q <= next)
      modifies lib.cells
      ensures View() == old(Swapped(View(), NextBlkp(bp), Get(bp + 4), Get(bp)))
    {
      hide IsWord, SizeOf;
      Put(NextBlkp(bp) + 4, Get(bp + 4));
      Put(NextBlkp(bp), Get(bp));
      Put(Get(bp + 4), NextBlkp(bp));
      Put(Get(bp) + 4, NextBlkp(bp));
    }

    /** The branch of Place for a bulk block whose rest stays in the list. */
    method PlaceInList(bp: int, asize: int)
      requires Sound() && layout.AllListed() && layout.Classed() && CoalescedInto(layout.blocks, bp)
      requires SplitRequest(layout, bp, asize) && layout.blocks[bp].bulk
      requires bp in layout.cls && layout.blocks[bp].size - asize > GetLowerBound(layout.cls[bp])
      modifies lib.cells, this`layout
      ensures Valid() && layout.brk == old(layout).brk && layout.base == old(layout).base
      ensures bp in layout.blocks && layout.blocks[bp] == Block(asize, true, true)
      ensures
        var rest := old(layout).blocks[bp].size - asize;
        old(layout).ListedAt(bp)
          && layout == old(layout).Swap(bp, bp + asize, Block(asize, true, true), Block(rest, false, true))
      ensures Held() == old(Held())[bp := layout.blocks[bp]]
      ensures Keeps(old(View()), View(), old(Held()))
    {
      hide Holds, Keeps, IsWord, SizeOf, IsAlloc, BulkBit, GetLowerBound, Layout.Threaded, Layout.Classed;
      hide Layout.Tiled, Layout.AllListed;
      hide CoalescedInto, Block.Word, Coalesced;
      ghost var l, m := layout, View();
      ReadBlock(m, l, bp);
      ghost var rest := l.blocks[bp].size - asize;
      ghost var b, c := Block(asize, true, true), Block(rest, false, true);
      SplitAccess(m, l, bp, asize, true);
      InListDone(m, l, bp, asize);
      var bsize := SizeAt(bp - 4);
      SetBoundaryTag(bp, asize, BULKTAG + ALLOCTAG);
      assert View() == TagsSet(m, bp, b);
      Relink(bp);
      assert View() == Swapped(TagsSet(m, bp, b), bp + asize, m[bp + 4], m[bp]);
      var q := NextBlkp(bp);
      SetBoundaryTag(q, bsize - asize, BULKTAG + FREETAG);
      layout := l.Swap(bp, bp + asize, b, c);
    }

    /** The branch of Place that lists the rest by its size. */
    method PlaceSplit(bp: int, asize: int)
      requires Sound() && layout.AllListed() && layout.Classed() && CoalescedInto(layout.blocks, bp)
      requires IsFree(layout.blocks, bp) && SplitRequest(layout, bp, asize)
      modifies lib.cells, this`layout
      ensures Valid() && layout.brk == old(layout).brk && layout.base == old(layout).base
      ensures bp in layout.blocks && layout.blocks[bp] == Block(asize, true, false)
      ensures
        var q, rest := bp + asize, old(layout).blocks[bp].size - asize;
        var bs := old(layout).blocks[bp := Block(asize, true, false)][q := Block(rest, false, false)];
        layout == Enlist(Unlist(old(layout), {bp}).(blocks := bs), q, GetSizeClass(rest))
      ensures Held() == old(Held())[bp := layout.blocks[bp]]
      ensures Keeps(old(View()), View(), old(Held()))
    {
      hide Holds, Keeps, IsWord, SizeOf, IsAlloc, BulkBit, GetSizeClass, GetLowerBound, Layout.Threaded;
      hide Layout.Classed, Layout.Tiled;
      hide CoalescedInto, Block.Word, SameWords, Coalesced, Unlist;
      ghost var l, m := layout, View();
      ReadBlock(m, l, bp);
      HoldsTiled(m, l);
      RingCount(l);
      SplitAccess(m, l, bp, asize, false);
      ghost var rest := l.blocks[bp].size - asize;
      ghost var b, c := Block(asize, true, false), Block(rest, false, false);
      var bsize := SizeAt(bp - 4);
      RemoveFromList(bp);
      ghost var l1, m1 := layout, View();
      SplitDone(l, m1, l1, bp, asize);
      SetBoundaryTag(bp, asize, ALLOCTAG);
      assert View() == TagsSet(m1, bp, b);
      var q := NextBlkp(bp);
      SetBoundaryTag(q, bsize - asize, FREETAG);
      layout := l1.(blocks := l1.blocks[bp := b][q := c]);
      KeepsTrans(m, m1, View(), Live(l.blocks), Live(l.blocks));
      ghost var m2 := View();
      InsertBlock(q, bsize - asize);
      KeepsTrans(m, m2, View(), Live(l.blocks), Live(layout.blocks));
    }

    /** The search will find a block for a request of asize bytes. */
    ghost predicate CanFit(asize: int)
      reads this
    {
      !NoneFits(layout, GetSizeClass(asize), SIZE_CLASS_NUM, asize)
    }

    /** Serving size bytes needs no more memory, or mem_sbrk can tell whether there is enough. */
    ghost predicate Servable(size: int)
      reads this, lib
    {
      size == 0 || CanFit(Align(size + 8)) || Testable(Growth(Align(size + 8)))
    }

    /** mm_malloc. The request must be small enough for its rounding, and the test of mem_sbrk, not to wrap. */
    method Malloc(size: int) returns (bp: int)
      requires Valid() && 0 <= size && size + 15 < WORD_LIMIT && Servable(size)
      modifies lib.cells, this`layout, lib`brk, lib`errno
      ensures Valid() && layout.base == old(layout).base
      ensures bp == 0 <==> size == 0 || (!old(CanFit(Align(size + 8))) && !old(HasRoom(Growth(Align(size + 8)))))
      ensures bp == 0 ==> layout == old(layout) && View() == old(View())
      ensures lib.errno == if bp == 0 && size != 0 then MemLib.ENOMEM else old(lib.errno)
      ensures bp != 0 ==>
        && bp !in old(Held()) && bp in Held() && Held() == old(Held())[bp := Held()[bp]]
        && size + 8 <= Held()[bp].size <= size + 23
      ensures size != 0 && old(CanFit(Align(size + 8))) ==>
        bp in old(layout).cls
          && FirstFit(old(layout), bp, old(layout).cls[bp], GetSizeClass(Align(size + 8)), Align(size + 8))
          && layout == Placed(old(layout), bp, Align(size + 8), old(layout).cls[bp])
      ensures bp != 0 && !old(CanFit(Align(size + 8))) ==>
        bp == GrownAt(old(layout), Align(size + 8))
          && layout == Placed(HeapGrown(old(layout), Align(size + 8)), bp, Align(size + 8), 0)
      ensures lib.brk == old(lib.brk) + if bp == 0 || old(CanFit(Align(size + 8))) then 0 else Growth(Align(size + 8))
      ensures Keeps(old(View()), View(), old(Held()))
    {
      hide Holds, Keeps, IsWord, SizeOf, IsAlloc, BulkBit, GetSizeClass, GetLowerBound, Layout.Threaded;
      hide Layout.Classed, Layout.Tiled, Layout.AllListed;
      hide CoalescedInto, Block.Word, SameWords, Coalesced, NoneFits, Placed, PlainGrown, BulkGrown, PlainAt, BulkAt;
      ghost var l, m := layout, View();
      KeepsSame(m, Live(l.blocks));
      HoldsTiled(m, l);
      var asize := Align(size + 8);
      if size == 0 { return 0; }

      var foundClass;
      bp, foundClass := FindFit(asize);
      if bp != 0 {
        FoundReady(l, bp, foundClass, asize);
        Place(bp, asize, foundClass);
        HoldsTiled(View(), layout);
        ServedSize(layout, bp, size, asize);
        return;
      }
      if asize <= CHUNKSIZE {
        bp := ExtendHeapBulk(asize);
      } else {
        bp := ExtendHeap(asize);
      }
      if bp == 0 { return; }
      ghost var m1 := View();
      if asize > CHUNKSIZE { CoalescedReady(layout.blocks, bp); }
      Place(bp, asize, 0);
      HoldsTiled(View(), layout);
      ServedSize(layout, bp, size, asize);
      KeepsTrans(m, m1, View(), Live(l.blocks), Live(l.blocks));
    }

    /**
     * mm_exit: walks the heap by header sizes and frees every block still held. After a block
     * has merged with its left neighbour the walk goes on through headers inside the result.
     */
    method Exit()
      requires Valid()
      modifies lib.cells, this`layout, if glRanges == null then {} else {glRanges}
      ensures Valid() && Held() == map[]
      ensures AllFree(layout)
      ensures glRanges != null ==> glRanges.ranges == Ranges.WithoutEach(old(glRanges.ranges), old(Held()).Keys)
    {
      hide Holds, Keeps, IsWord, SizeOf, IsAlloc, BulkBit, Layout.Threaded, Layout.Classed, Layout.Tiled;
      hide Layout.AllListed;
      hide Coalesced, Block.Word, StaleHeaders, MergeAround, HasFreeLeft, OnWalk, HeadsList, Released, NoneFits;
      hide Joining;
      ghost var freed: set<int> := {};
      if glRanges != null { Ranges.WithoutNone(glRanges.ranges); }
      PrologueReads(View(), layout);
      var probe := NextBlkp(prologue);
      while SizeAt(probe - 4) != 0
        invariant Valid() && layout.base == old(layout.base)
        invariant OnWalk(View(), layout, probe) && NoneBelow(Held(), probe)
        invariant IsWord(sizeClassP, lib.brk, probe - 4)
        invariant Held().Keys == old(Held()).Keys - freed && freed <= old(Held()).Keys
        invariant glRanges != null ==> glRanges.ranges == Ranges.WithoutEach(old(glRanges.ranges), freed)
        decreases lib.brk - probe
      {
        ghost var l, m := layout, View();
        WalkReads(m, l, probe);
        if IsAlloc(Get(probe - 4)) {
          if glRanges != null { Ranges.WithoutOneMore(old(glRanges.ranges), freed, probe); }
          Free(probe);
          freed := freed + {probe};
          WalkFreed(m, l, View(), layout, probe);
        } else {
          WalkOn(m, l, probe);
        }
        probe := NextBlkp(probe);
        WalkReads(View(), layout, probe);
      }
      WalkReads(View(), layout, probe);
      HoldsTiled(View(), layout);
      WalkDone(layout);
      assert freed == old(Held()).Keys by { assert Held().Keys == {}; }
    }

    /** The words of the storage, from the heap's base on, as the machine has them. */
    ghost function Words(): Image
      reads this, lib, lib.cells
    {
      Image(View(), sizeClassP, lib.maxAddr)
    }

    ghost predicate Mapped()
      reads this, lib
    {
      lib.Valid() && lib.startBrk <= sizeClassP && sizeClassP + PREAMBLE <= lib.brk
    }

    /** GET at a 32-bit address. */
    method Read(a: int) returns (o: Outcome<MemLib.Word>)
      requires Mapped()
      ensures o == Words().Get(a)
    {
      return if IsWord(sizeClassP, lib.maxAddr, Wrap(a)) then Done(lib.cells[Wrap(a)]) else Wild;
    }

    /** PUT at a 32-bit address. */
    method Write(a: int, v: MemLib.Word) returns (o: Outcome<()>)
      requires Mapped()
      modifies lib.cells
      ensures Ran(o, old(Words().Put(a, v)))
    {
      if !IsWord(sizeClassP, lib.maxAddr, Wrap(a)) { return Wild; }
      lib.cells[Wrap(a)] := v;
      return Done(());
    }

    /** A call came to the end that run describes: an access outside the storage, or this memory. */
    ghost predicate Ran(o: Outcome<()>, run: Outcome<Image>)
      reads this, lib, lib.cells
    {
      o.Done? == run.Done? && (run.Done? ==> Words() == run.value)
    }

    /** set_boundary_tag with no invariant to rely on: the size may be a negative one, wrapped. */
    method SetTagUnchecked(bp: int, asize: int, tag: int) returns (o: Outcome<()>)
      requires Mapped() && 0 <= asize < WORD_LIMIT && asize % 8 == 0 && 0 <= tag < 4
      modifies lib.cells
      ensures Ran(o, old(Words().SetTag(bp, asize, tag)))
    {
      hide IsWord, Wrap, SizeOf;
      var _ :- Write(bp - 4, Pack(asize, tag));
      var hdr := lib.cells[Wrap(bp - 4)];
      o := Write(bp + SizeOf(hdr) - 8, Pack(asize, tag));
    }

    /** insert_block with no invariant to rely on. */
    method InsertUnchecked(bp: int, asize: int) returns (o: Outcome<()>)
      requires Mapped() && 0 <= bp < WORD_LIMIT
      modifies lib.cells
      ensures Ran(o, old(Words().Insert(bp, asize)))
    {
      hide IsWord, Wrap, GetSizeClass;
      var sclassp := GetClassRoot(GetSizeClass(asize));
      var _ :- Write(bp + 4, sclassp);
      var first: MemLib.Word :- Read(sclassp);
      var _ :- Write(bp, first);
      var next: int := lib.cells[Wrap(sclassp)];
      var _ :- Write(next + 4, bp);
      o := Write(sclassp, bp);
    }

    /** remove_from_list with no invariant to rely on. */
    method RemoveUnchecked(bp: int) returns (o: Outcome<()>)
      requires Mapped()
      modifies lib.cells
      ensures Ran(o, old(Words().Remove(bp)))
    {
      hide IsWord, Wrap;
      var prev :- Read(bp + 4);
      var next :- Read(bp);
      var _ :- Write(prev, next);
      var next': int := lib.cells[Wrap(bp)];
      var prev' := lib.cells[Wrap(bp + 4)];
      o := Write(next' + 4, prev');
    }

    /** The tags on both sides of bp that coalesce looks at, with no invariant to rely on. */
    method ReadNeighboursUnchecked(bp: int) returns (o: Outcome<MemLib.Word>, behind: MemLib.Word)
      requires Mapped()
      ensures o.Done? == (Words().TagBefore(bp).Done? && Words().TagBehind(bp).Done?)
      ensures o.Done? ==> o == Words().TagBefore(bp) && behind == Words().TagBehind(bp).value
    {
      hide IsWord, Wrap, SizeOf;
      behind := 0;
      var ftr :- Read(bp - 8);
      var prevbp := Wrap(bp - SizeOf(ftr));
      var prevHdr :- Read(prevbp - 4);
      var before :- Read(prevbp + SizeOf(prevHdr) - 8);
      var hdr :- Read(bp - 4);
      behind :- Read(Wrap(bp + SizeOf(hdr)) - 4);
      return Done(before), behind;
    }

    /** The joining half of coalesce, with no invariant to rely on. */
    method JoinUnchecked(bp0: int, size0: int, prevAlloc: bool, nextAlloc: bool) returns (o: Outcome<()>)
      requires Mapped() && 0 <= bp0 < WORD_LIMIT && 0 <= size0 < WORD_LIMIT && size0 % 8 == 0
      modifies lib.cells
      ensures Ran(o, old(Words().Join(bp0, size0, prevAlloc, nextAlloc)))
    {
      hide IsWord, Wrap, SizeOf, Image.Remove, Image.SetTag, Image.Insert;
      var bp, size := bp0, size0;
      if !nextAlloc {
        var hdr :- Read(bp - 4);
        var nextbp := Wrap(bp + SizeOf(hdr));
        var nextHdr :- Read(nextbp - 4);
        WrappedOctets(size, nextHdr);
        size := Wrap(size + SizeOf(nextHdr));
        var _ :- RemoveUnchecked(nextbp);
      }
      if !prevAlloc {
        var ftr :- Read(bp - 8);
        WrapBounds(bp - SizeOf(ftr));
        bp := Wrap(bp - SizeOf(ftr));
        var _ :- RemoveUnchecked(bp);
        var prevHdr :- Read(bp - 4);
        WrappedOctets(size, prevHdr);
        size := Wrap(size + SizeOf(prevHdr));
      }
      var _ :- SetTagUnchecked(bp, size, FREETAG);
      o := InsertUnchecked(bp, size);
    }

    /** coalesce with no invariant to rely on. */
    method CoalesceUnchecked(bp: int) returns (o: Outcome<()>)
      requires Mapped() && 0 <= bp < WORD_LIMIT
      modifies lib.cells
      ensures Ran(o, old(Words().Coalesce(bp)))
    {
      hide IsWord, Wrap, SizeOf, IsAlloc, Image.Remove, Image.Join, Image.TagBefore, Image.TagBehind;
      var before, behind :- ReadNeighboursUnchecked(bp);
      var hdr :- Read(bp - 4);
      if IsAlloc(before) && IsAlloc(behind) { return Done(()); }
      var _ :- RemoveUnchecked(bp);
      WordSize(hdr);
      o := JoinUnchecked(bp, SizeOf(hdr), IsAlloc(before), IsAlloc(behind));
    }

    /** The shrinking branch of mm_realloc with no invariant to rely on: what a growing call runs. */
    method CutUnchecked(ptr: int, newAsize: int) returns (o: Outcome<()>)
      requires Mapped() && 0 <= newAsize < WORD_LIMIT && newAsize % 8 == 0
      modifies lib.cells
      ensures Ran(o, old(Words().Cut(ptr, newAsize)))
    {
      hide IsWord, Wrap, SizeOf, BulkBit, Minus, Image.SetTag, Image.Insert, Image.Coalesce;
      var hdr :- Read(ptr - 4);
      MinusOctets(hdr, newAsize);
      var rest := Minus(SizeOf(hdr), newAsize);
      var _ :- SetTagUnchecked(ptr, newAsize, BulkBit(hdr) + ALLOCTAG);
      hdr := lib.cells[Wrap(ptr - 4)];
      WrapBounds(ptr + SizeOf(hdr));
      var _ :- SetTagUnchecked(Wrap(ptr + SizeOf(hdr)), rest, BulkBit(hdr));
      hdr := lib.cells[Wrap(ptr - 4)];
      WrapBounds(ptr + SizeOf(hdr));
      var _ :- InsertUnchecked(Wrap(ptr + SizeOf(hdr)), rest);
      hdr := lib.cells[Wrap(ptr - 4)];
      WrapBounds(ptr + SizeOf(hdr));
      o := CoalesceUnchecked(Wrap(ptr + SizeOf(hdr)));
    }

    /**
     * The shrinking branch of mm_realloc, whichever request took it. One that shrinks the block,
     * or grows it with room behind it, leaves the heap in order; after any other that stays
     * within the storage, no layout explains it.
     */
    method Cut(ptr: int, newAsize: int) returns (o: Outcome<()>)
      requires Valid() && ptr in Held() && 16 <= newAsize < WORD_LIMIT && newAsize % 8 == 0
      requires TakesShrinkBranch(Held()[ptr].size, newAsize)
      modifies lib.cells, this`layout
      ensures Ran(o, old(Words().Cut(ptr, newAsize)))
      ensures
        if newAsize <= old(Held())[ptr].size || old(Regrowing.RoomBehind(layout, ptr, newAsize)) then
          && o.Done? && Valid() && layout.base == old(layout).base
          && Held() == old(Held())[ptr := Block(newAsize, true, old(Held())[ptr].bulk)]
          && (if newAsize <= old(Held())[ptr].size then layout == CutDown(old(layout), ptr, newAsize)
              else Regrowing.TakesOver(old(layout), layout, ptr, newAsize))
          && Keeps(old(View()), View(), if newAsize <= old(Held())[ptr].size then Held() else old(Held()))
        else
          Regrowing.Spacious(sizeClassP, lib.maxAddr) ==>
            o.Wild? || !Overgrowing.Explained(old(layout), ptr, newAsize, View())
    {
      hide Holds, Keeps, IsWord, Layout.Threaded, Layout.Classed, Layout.AllListed, Layout.Tiled, Coalesced;
      hide Regrowing.RoomBehind, Overgrowing.Explained, Regrowing.Grown, Regrowing.TakesOver, Image.Cut, CutDown;
      ghost var m, l := View(), layout;
      ReadBlock(m, l, ptr);
      GuardAgrees(l.blocks[ptr].size, newAsize);
      o := CutUnchecked(ptr, newAsize);
      assert Ran(o, Regrowing.ImageOf(m, l).Cut(ptr, newAsize));
      if newAsize <= l.blocks[ptr].size {
        ghost var m';
        m', layout := Shrinking.CutShrinks(m, l, ptr, newAsize);
      } else if Regrowing.RoomBehind(l, ptr, newAsize) {
        Regrowing.GrowthServed(m, l, ptr, newAsize);
        layout := Regrowing.Grown(l, ptr, newAsize);
        Regrowing.GrownTakesOver(m, l, ptr, newAsize);
      } else if Regrowing.Spacious(sizeClassP, lib.maxAddr) {
        Overgrowing.GrowthServedExactly(m, l, ptr, newAsize);
      }
    }

    /**
     * mm_realloc as it is coded. A call that grows a block works exactly if there is room behind
     * the block; otherwise it leaves the storage, or a heap that no layout explains.
     */
    method Realloc(ptr: int, t: int) returns (o: Outcome<int>)
      requires Valid() && 0 <= t && t + 15 < WORD_LIMIT
      requires if ptr == 0 then Servable(t) else ptr in Held()
      modifies lib.cells, this`layout, lib`brk, lib`errno, if glRanges == null then {} else {glRanges}
      ensures ptr == 0 ==>
        && Valid() && o.Done?
        && (o.value == 0 <==> t == 0 || (!old(CanFit(Align(t + 8))) && !old(HasRoom(Growth(Align(t + 8))))))
        && (o.value != 0 ==> o.value !in old(Held()) && o.value in Held()
                             && Held() == old(Held())[o.value := Held()[o.value]]
                             && t + 8 <= Held()[o.value].size <= t + 23)
        && (o.value == 0 ==> layout == old(layout) && View() == old(View()))
        && Keeps(old(View()), View(), old(Held()))
      ensures ptr != 0 && t == 0 ==>
        Valid() && o == Done(0) && Held() == old(Held()) - {ptr} && Keeps(old(View()), View(), Held())
      ensures glRanges != null ==>
        glRanges.ranges ==
          if ptr != 0 && t == 0 then Ranges.Without(old(glRanges.ranges), ptr) else old(glRanges.ranges)
      ensures ptr != 0 && t != 0 ==> lib.Valid() && lib.brk == old(lib.brk) && lib.errno == old(lib.errno)
      ensures ptr != 0 && t != 0 && Align(t + 8) <= old(Held())[ptr].size ==>
        && Valid() && o == Done(ptr) && ptr in Held() && Held() == old(Held())[ptr := Held()[ptr]]
        && (if old(Held())[ptr].size - Align(t + 8) >= 16
            then layout == CutDown(old(layout), ptr, Align(t + 8)) && Held()[ptr].size == Align(t + 8)
            else layout == old(layout) && View() == old(View()))
        && Keeps(old(View()), View(), Held())
      ensures ptr != 0 && t != 0 && old(Held())[ptr].size < Align(t + 8) ==>
        if old(Regrowing.RoomBehind(layout, ptr, Align(t + 8))) then
          && Valid() && o == Done(ptr) && Held() == old(Held())[ptr := Block(Align(t + 8), true, old(Held())[ptr].bulk)]
          && Regrowing.TakesOver(old(layout), layout, ptr, Align(t + 8))
          && Keeps(old(View()), View(), old(Held()))
        else
          Regrowing.Spacious(sizeClassP, lib.maxAddr) ==>
            o.Wild? || !Overgrowing.Explained(old(layout), ptr, Align(t + 8), View())
    {
      hide Holds, Keeps, IsWord, SizeOf, IsAlloc, Layout.Threaded, Layout.Classed, Layout.AllListed, Layout.Tiled;
      hide Block.Word, Coalesced, MergeAround, NoneFits, StaleHeaders, Image.Cut, HeadsList, Released, Placed, FirstFit;
      hide Joining, PlainGrown, BulkGrown, PlainAt, BulkAt;
      hide Regrowing.RoomBehind, Overgrowing.Explained, Regrowing.TakesOver, CutDown;
      if ptr == 0 {
        var bp := Malloc(t);
        return Done(bp);
      }
      if t == 0 {
        Free(ptr);
        return Done(0);
      }
      ReadBlock(View(), layout, ptr);
      var origSize := SizeAt(ptr - 4);
      var newAsize := Align(t + 8);
      GuardAgrees(origSize, newAsize);
      if Minus(origSize, newAsize) >= MIN_BLOCK_SIZE {
        var _ :- Cut(ptr, newAsize);
        return Done(ptr);
      } else if newAsize <= origSize {
        KeepsSame(View(), Held());
        return Done(ptr);
      }
      GrowthUnreachable(origSize, newAsize);
      assert false;
    }

    /** Copies n bytes, a word at a time, from the payload at ptr to the one at newbp. */
    method CopyPayload(ptr: int, newbp: int, n: int)
      requires Valid() && ptr in Held() && newbp in Held() && ptr != newbp
      requires n == Held()[ptr].size - 8 && n <= Held()[newbp].size - 8
      modifies lib.cells
      ensures Valid()
      ensures Copied(old(View()), View(), ptr, newbp, n)
      ensures Keeps(old(View()), View(), Held() - {newbp})
    {
      hide Holds, Keeps, IsWord, Layout.Threaded, Layout.Classed, Layout.AllListed, Layout.Tiled, Coalesced, Copied;
      ghost var m, l := View(), layout;
      HoldsTiled(m, l);
      ReadBlock(m, l, ptr);
      HeldApart(l, ptr, newbp);
      CopiedNone(m, m, ptr, newbp);
      var copyIndex := 0;
      while copyIndex < n
        invariant 0 <= copyIndex <= n && copyIndex % 4 == 0
        invariant OnlyWithin(m, View(), newbp, newbp + n)
        invariant Copied(m, View(), ptr, newbp, copyIndex)
      {
        CopiedWords(l, ptr, copyIndex);
        CopiedWords(l, newbp, copyIndex);
        ghost var m1 := View();
        Put(newbp + copyIndex, Get(ptr + copyIndex));
        CopiedOneMore(m, m1, View(), ptr, newbp, copyIndex);
        assert (copyIndex + 4) % 4 == 0;
        copyIndex := copyIndex + 4;
      }
      PayloadHolds(m, l, newbp, View());
    }

    /** The space at ptr once a free block behind it is merged in. */
    ghost function Reach(ptr: int): int
      requires ptr in layout.blocks
      reads this
    {
      var e := End(layout.blocks, ptr);
      layout.blocks[ptr].size + if IsFree(layout.blocks, e) then layout.blocks[e].size else 0
    }

    /** mm_malloc would serve asize bytes even if the block behind ptr left its list. */
    ghost predicate CanMove(ptr: int, asize: int)
      requires ptr in layout.blocks
      reads this, lib
    {
      || HasRoom(Growth(asize))
      || SuitedBeside(layout, End(layout.blocks, ptr), asize)
    }

    /** The step of mm_realloc that merges the free block behind ptr into it. */
    method MergeNext(ptr: int)
      requires Valid() && ptr in Held() && IsFree(layout.blocks, End(layout.blocks, ptr))
      modifies lib.cells, this`layout
      ensures Valid() && layout.base == old(layout).base
      ensures ptr in Held() && Held() == old(Held())[ptr := Held()[ptr]]
      ensures old(Held())[ptr].size < Held()[ptr].size == old(Reach(ptr))
        && !IsFree(layout.blocks, End(layout.blocks, ptr))
      ensures
        var e := End(old(layout).blocks, ptr);
        layout == Unlist(old(layout), {e})
                    .(blocks := (old(layout).blocks - {e})[ptr := Block(old(Reach(ptr)), true, false)])
      ensures Keeps(old(View()), View(), old(Held()))
    {
      hide Holds, Keeps, IsWord, SizeOf, IsAlloc, GetSizeClass, Layout.Threaded, Layout.Classed, Layout.Tiled;
      hide Block.Word, Coalesced, Unlist;
      ghost var l, m := layout, View();
      ReadBlock(m, l, ptr);
      ReadNext(m, l, ptr);
      ReadBlock(m, l, End(l.blocks, ptr));
      var origSize := SizeAt(ptr - 4);
      var next := NextBlkp(ptr);
      var nextSize := SizeAt(next - 4);
      RemoveFromList(next);
      ghost var l1, m1 := layout, View();
      StretchDone(l, m1, l1, ptr);
      SetBoundaryTag(ptr, origSize + nextSize, ALLOCTAG);
      layout := l1.(blocks := (l.blocks - {next})[ptr := Block(origSize + nextSize, true, false)]);
      KeepsTrans(m, m1, View(), Live(l.blocks), Live(l.blocks));
    }

    /**
     * The branch of mm_realloc that allocates anew, copies, and frees the original. It does not
     * look whether mm_malloc succeeded: if it did not, the copy starts at address 0.
     */
    method Move(ptr: int, t: int) returns (o: Outcome<int>)
      requires Valid() && ptr in Held() && 0 < t && t + 15 < WORD_LIMIT && Held()[ptr].size <= Align(t + 8)
      requires Servable(t)
      modifies lib.cells, this`layout, lib`brk, lib`errno, if glRanges == null then {} else {glRanges}
      ensures Valid()
      ensures o.Wild? <==> !old(CanFit(Align(t + 8))) && !old(HasRoom(Growth(Align(t + 8))))
      ensures o.Wild? ==> layout == old(layout) && View() == old(View())
      ensures glRanges != null ==>
        glRanges.ranges == if o.Wild? then old(glRanges.ranges) else Ranges.Without(old(glRanges.ranges), ptr)
      ensures o.Done? ==>
        && o.value in Held() && o.value !in old(Held())
        && Held() == (old(Held()) - {ptr})[o.value := Held()[o.value]] && t + 8 <= Held()[o.value].size <= t + 23
        && Copied(old(View()), View(), ptr, o.value, old(Held())[ptr].size - 8)
        && Keeps(old(View()), View(), old(Held()) - {ptr})
    {
      hide Holds, Keeps, IsWord, SizeOf, Layout.Threaded, Layout.Classed, Layout.Tiled, Layout.AllListed;
      hide Block.Word, Coalesced, Copied, StaleHeaders, MergeAround, NoneFits, HeadsList, Released, Placed, FirstFit;
      hide Joining, HeapGrown, GrownAt, Live;
      ghost var m, held := View(), Held();
      HeldBlock(layout.blocks, ptr);
      ReadBlock(m, layout, ptr);
      var origSize := SizeAt(ptr - 4);
      var newbp := Malloc(t);
      if newbp == 0 { return Wild; }
      HeldBlock(layout.blocks, newbp);
      ReadBlock(View(), layout, newbp);
      AlignLeast(t + 8, Held()[newbp].size);
      ghost var m1 := View();
      CopyPayload(ptr, newbp, origSize - 8);
      ghost var m2 := View();
      Free(ptr);
      MovedThen(m, m1, m2, View(), held, ptr, newbp, Held()[newbp]);
      return Done(newbp);
    }

    /**
     * mm_realloc of a held block to a positive size, with the comparison its comment describes.
     * It calls itself at most once: after a merge the next block is not free.
     */
    method ReallocIntended(ptr: int, t: int) returns (o: Outcome<int>)
      requires Valid() && ptr in Held() && 0 < t && t + 15 < WORD_LIMIT
      requires Reach(ptr) >= Align(t + 8) || CanMove(ptr, Align(t + 8)) || Testable(Growth(Align(t + 8)))
      modifies lib.cells, this`layout, lib`brk, lib`errno, if glRanges == null then {} else {glRanges}
      ensures Valid()
      ensures o.Wild? <==> old(Reach(ptr)) < Align(t + 8) && !old(CanMove(ptr, Align(t + 8)))
      ensures o.Wild? ==> Keeps(old(View()), View(), old(Held()))
      ensures o.Done? ==> (o.value == ptr <==> Align(t + 8) <= old(Reach(ptr)))
      ensures o.Done? ==>
        && o.value in Held() && (o.value != ptr ==> o.value !in old(Held()))
        && Held() == (old(Held()) - {ptr})[o.value := Held()[o.value]] && t + 8 <= Held()[o.value].size
        && (o.value != ptr ==> Held()[o.value].size <= t + 23)
        && (o.value == ptr ==>
              var whole := if Align(t + 8) <= old(Held())[ptr].size then old(Held())[ptr].size else old(Reach(ptr));
              Held()[ptr].size == if whole - Align(t + 8) >= 16 then Align(t + 8) else whole)
        && Copied(old(View()), View(), ptr, o.value, Min(old(Held())[ptr].size, Held()[o.value].size) - 8)
        && Keeps(old(View()), View(), old(Held()) - {ptr})
      ensures glRanges != null ==>
        glRanges.ranges ==
          if o.Wild? || o.value == ptr then old(glRanges.ranges) else Ranges.Without(old(glRanges.ranges), ptr)
      decreases if IsFree(layout.blocks, End(layout.blocks, ptr)) then 1 else 0, 1
    {
      hide Holds, Keeps, IsWord, SizeOf, Layout.Threaded, Layout.Classed, Layout.Tiled, Layout.AllListed;
      hide Block.Word, Coalesced, Copied, SuitedBeside, TakesShrinkBranch, Image.Cut, Regrowing.RoomBehind;
      hide Overgrowing.Explained, Regrowing.TakesOver, CutDown;
      ghost var l, m := layout, View();
      ReadBlock(m, l, ptr);
      if IsFree(l.blocks, End(l.blocks, ptr)) { ReadBlock(m, l, End(l.blocks, ptr)); }
      var origSize := SizeAt(ptr - 4);
      var newAsize := Align(t + 8);
      if origSize - newAsize >= MIN_BLOCK_SIZE {
        ShrinkTaken(origSize, newAsize);
        var _ := Cut(ptr, newAsize);
        StayedThen(m, View(), Live(l.blocks), Held(), ptr);
        return Done(ptr);
      } else if newAsize <= origSize {
        KeepsSame(m, Held());
        StayedThen(m, m, Live(l.blocks), Held(), ptr);
        return Done(ptr);
      }
      o := Grow(ptr, t);
    }

    /** The part of mm_realloc behind its first two tests: merges the next block in, or moves. */
    method Grow(ptr: int, t: int) returns (o: Outcome<int>)
      requires Valid() && ptr in Held() && 0 < t && t + 15 < WORD_LIMIT && Held()[ptr].size < Align(t + 8)
      requires Reach(ptr) >= Align(t + 8) || CanMove(ptr, Align(t + 8)) || Testable(Growth(Align(t + 8)))
      modifies lib.cells, this`layout, lib`brk, lib`errno, if glRanges == null then {} else {glRanges}
      ensures Valid()
      ensures o.Wild? <==> old(Reach(ptr)) < Align(t + 8) && !old(CanMove(ptr, Align(t + 8)))
      ensures o.Wild? ==> Keeps(old(View()), View(), old(Held()))
      ensures o.Done? ==> (o.value == ptr <==> Align(t + 8) <= old(Reach(ptr)))
      ensures o.Done? ==>
        && o.value in Held() && (o.value != ptr ==> o.value !in old(Held()))
        && Held() == (old(Held()) - {ptr})[o.value := Held()[o.value]] && t + 8 <= Held()[o.value].size
        && (o.value != ptr ==> Held()[o.value].size <= t + 23)
        && (o.value == ptr ==>
              Held()[ptr].size == if old(Reach(ptr)) - Align(t + 8) >= 16 then Align(t + 8) else old(Reach(ptr)))
        && Copied(old(View()), View(), ptr, o.value, Min(old(Held())[ptr].size, Held()[o.value].size) - 8)
        && Keeps(old(View()), View(), old(Held()) - {ptr})
      ensures glRanges != null ==>
        glRanges.ranges ==
          if o.Wild? || o.value == ptr then old(glRanges.ranges) else Ranges.Without(old(glRanges.ranges), ptr)
      decreases if IsFree(layout.blocks, End(layout.blocks, ptr)) then 1 else 0, 0
    {
      hide Holds, Keeps, IsWord, SizeOf, IsAlloc, BulkBit, GetSizeClass, Layout.Threaded, Layout.Classed;
      hide Layout.Tiled, Layout.AllListed;
      hide Block.Word, Coalesced, Copied, NoneFits, SuitedBeside, Growth, Unlisted, Unlist, Live;
      ghost var l, m, held := layout, View(), Held();
      HeldBlock(l.blocks, ptr);
      ReadBlock(m, l, ptr);
      ReadNext(m, l, ptr);
      HoldsTiled(m, l);
      ghost var asize := Align(t + 8);
      KeepsSame(m, held);
      if !IsAlloc(Get(NextBlkp(ptr) - 4)) {
        MergeNext(ptr);
        ghost var l1, m1, held1 := layout, View(), Held();
        HeldBlock(l1.blocks, ptr);
        HoldsTiled(m1, l1);
        MergedMoves(l, l1, ptr, Held()[ptr], asize);
        o := ReallocIntended(ptr, t);
        if o.Done? {
          MergedThen(m, m1, View(), held, held1, ptr, o.value, held[ptr].size, Held()[o.value].size);
        } else {
          MergedKeeps(m, m1, View(), held, held1, ptr);
        }
        return;
      }
      FitsBeside(l, End(l.blocks, ptr), asize);
      o := Move(ptr, t);
    }

    /** The fields of Linkable, without its claim about memory: marks may be set. */
    ghost predicate Bounded()
      reads this, lib
    {
      && lib.Valid() && layout.base == sizeClassP && layout.brk == lib.brk && lib.startBrk <= sizeClassP
      && prologue == sizeClassP + 264
    }

    /**
     * The first pass of mm_check: inspects and marks the listed blocks, up to the first one with a
     * fault. m is the memory before the headers of the listed blocks xs were made to read as
     * allocated.
     */
    method CheckLists(ghost m: Memory, ghost xs: set<int>) returns (error: int, ghost s: set<int>)
      requires Bounded() && UnderWay(m, View(), View(), layout, xs, {})
      modifies lib.cells
      ensures UnderWay(m, old(View()), View(), layout, xs, s)
      ensures error == NO_ERROR ==> ListsFine(layout, xs) && xs == {} && forall p :: p in layout.cls ==> p in s
      ensures error != NO_ERROR ==>
        !ListsFine(layout, xs) && exists c, k :: FirstListFault(layout, xs, c, k, error)
    {
      hide Holds, IsWord, SizeOf, IsAlloc, IsMarked, BulkBit, GetLowerBound, Layout.Threaded, Layout.Classed;
      hide Layout.AllListed, Marked, Tampered, ListedBelow, Faultless, FirstListFault, ListsFine, FirstFit, NoneFits;
      ghost var l, m1 := layout, View();
      HoldsTiled(m, l);
      RingCount(l);
      error, s := NO_ERROR, {};
      ListedBelowNone(l);
      assert Faultless(l, xs, {}) by { FaultlessNone(l, xs); }
      var i := 0;
      while i < SIZE_CLASS_NUM
        invariant 0 <= i <= SIZE_CLASS_NUM && error == NO_ERROR
        invariant UnderWay(m, m1, View(), l, xs, s) && ListedBelow(l, i, 1, s) && Faultless(l, xs, s)
      {
        RingShape(l, i);
        MarkedWalk(m, m1, View(), l, xs, s, i, 0);
        var classroot := GetClassRoot(i);
        var probe := Get(classroot);
        var classlb, classub := GetLowerBound(i), GetLowerBound(i + 1);
        ghost var k := 1;
        while probe != classroot
          invariant 0 < k < |l.rings[i]| && probe == l.rings[i][k] && error == NO_ERROR
          invariant probe == classroot <==> k == |l.rings[i]| - 1
          invariant UnderWay(m, m1, View(), l, xs, s) && ListedBelow(l, i, k, s) && Faultless(l, xs, s)
          decreases |l.rings[i]| - k
        {
          MarkedNode(m, m1, View(), l, xs, s, i, k);
          if IsAlloc(Get(probe - 4)) {
            error := ERROR_ALLOC_IN_FREE_LIST;
            FaultFound(l, xs, i, k, s);
            break;
          }
          var size := SizeAt(probe - 4);
          if size <= classlb || (BulkBit(Get(probe - 4)) == FREETAG && classub < size) {
            error := ERROR_WRONG_SIZE_CLASS;
            FaultFound(l, xs, i, k, s);
            break;
          }
          MarkOne(m1, View(), l, s, probe);
          Put(probe - 4, WithMark(Get(probe - 4)));
          ListedOneMore(l, xs, i, k, s, probe);
          s := s + {probe};
          MarkedWalk(m, m1, View(), l, xs, s, i, k);
          probe := Get(probe);
          k := k + 1;
        }
        if error != NO_ERROR { break; }
        ListedNext(l, i, s);
        i := i + 1;
      }
      if error == NO_ERROR { ListedAll(m, m1, l, xs, s); }
    }

    /**
     * The second pass of mm_check: inspects the blocks in order of address, up to the first one
     * with a fault, and erases the marks as it goes.
     */
    method CheckBlocks(ghost m: Memory, ghost s0: set<int>) returns (error: int, ghost s: set<int>)
      requires Bounded() && Holds(m, layout) && Marked(m, View(), layout, s0)
      requires forall p :: p in layout.cls ==> p in s0
      modifies lib.cells
      ensures Marked(m, View(), layout, s)
      ensures error == NO_ERROR ==> View() == m && s == {} && BlocksFine(layout, layout.brk)
      ensures error != NO_ERROR ==> exists p :: FirstBlockFault(layout, p, error)
    {
      hide Holds, IsWord, SizeOf, IsAlloc, IsMarked, BulkBit, Layout.Threaded, Marked, MarkedFrom, BlocksFine;
      hide HasFreeLeft, NoneFits, FirstFit;
      ghost var l := layout;
      s := s0;
      HoldsTiled(m, l);
      error := NO_ERROR;
      MarkedPrologue(m, View(), l, s);
      MarkedFromFirst(m, View(), l, s);
      var probe := NextBlkp(prologue);
      MarkedSize(m, View(), l, s, probe);
      while SizeAt(probe - 4) != 0
        invariant error == NO_ERROR
        invariant Marked(m, View(), l, s) && MarkedFrom(l, probe, s) && BlocksFine(l, probe)
        invariant probe in l.blocks || probe == l.brk
        invariant IsWord(sizeClassP, lib.brk, probe - 4) && sizeClassP + 264 < probe <= lib.brk
        invariant SizeOf(View()[probe - 4]) == 0 <==> probe == l.brk
        decreases lib.brk - probe
      {
        MarkedAround(m, View(), l, s, probe);
        MarkedFromNext(m, l, probe, s);
        var prev := PrevBlkp(probe);
        if !IsAlloc(Get(prev - 4)) && !IsAlloc(Get(probe - 4)) {
          if !(BulkBit(Get(prev - 4)) != FREETAG && BulkBit(Get(probe - 4)) != FREETAG) {
            error := ERROR_COALESCE_FAILED;
            assert FirstBlockFault(l, probe, error);
            break;
          }
        }
        if !IsAlloc(Get(probe - 4)) {
          if IsMarked(Get(probe - 4)) {
            EraseOne(m, View(), l, s, probe);
            Put(probe - 4, WithoutMark(Get(probe - 4)));
          } else {
            error := ERROR_ISOLATED_FREE_BLOCK;
            assert FirstBlockFault(l, probe, error);
            break;
          }
        }
        s := s - {probe};
        MarkedAround(m, View(), l, s, probe);
        probe := NextBlkp(probe);
        MarkedSize(m, View(), l, s, probe);
      }
      if error == NO_ERROR { MarkedNoMore(m, View(), l, s); }
    }

    /**
     * mm_check, on any heap whose words hold a layout but for listed blocks xs whose headers read
     * as allocated: reports the first fault. Without one it leaves no trace, otherwise the marks
     * of the blocks s stay behind.
     */
    method Check(ghost m: Memory, ghost xs: set<int>) returns (error: int, ghost s: set<int>)
      requires Bounded() && Holds(m, layout) && Tampered(m, View(), layout, xs)
      modifies lib.cells
      ensures Reported(layout, xs, error)
      ensures Marked(old(View()), View(), layout, s) && (error == NO_ERROR ==> s == {} && View() == old(View()))
    {
      hide Holds, Tampered, Marked, ListsFine, FirstListFault, BlocksFine, FirstBlockFault;
      MarkedNone(View(), layout);
      error, s := CheckLists(m, xs);
      if error == NO_ERROR {
        Untampered(m, old(View()), layout);
        error, s := CheckBlocks(m, s);
      }
    }

    /** On a heap in order it reports nothing. */
    method CheckValid() returns (error: int)
      requires Valid()
      modifies lib.cells
      ensures error == NO_ERROR && View() == old(View()) && Valid()
    {
      hide Holds, Tampered, Marked, Reported, Layout.Threaded, Layout.Tiled, Layout.Classed, Layout.AllListed;
      ghost var m, s := View(), {};
      Untampered(m, m, layout);
      HoldsTiled(m, layout);
      error, s := Check(m, {});
      NoErrorExactly(layout, {});
      ReportUnique(layout, {}, error, NO_ERROR);
    }
  }
}
