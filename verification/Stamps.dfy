/** The bytes the driver fills payloads with, and finds again after a reallocation. */
module Stamps {
  import opened Tags
  import opened Blocks
  import opened Layouts
  import opened Heaps
  import opened Payloads
  import opened Allocators
  import opened Coalescing
  import MemLib

  /** The weight of the bytes of a word above its lowest n. */
  function Weight(n: int): int {
    if n == 1 then 0x100 else if n == 2 then 0x1_0000 else if n == 3 then 0x100_0000 else WORD_LIMIT
  }

  /** w with its lowest n bytes set to b, as memset leaves a word it covers in part. */
  function FillLow(w: MemLib.Word, n: int, b: int): (r: MemLib.Word)
    requires 0 < n <= 4 && 0 <= b < 256
  {
    if n == 1 then w - w % 0x100 + b
    else if n == 2 then w - w % 0x1_0000 + b * 0x0101
    else if n == 3 then w - w % 0x100_0000 + b * 0x01_0101
    else b * 0x0101_0101
  }

  /** The lowest n bytes become bytes b, and the bytes above them stay. */
  lemma FillLowSplits(w: MemLib.Word, n: int, b: int)
    requires 0 < n <= 4 && 0 <= b < 256
    ensures
      var r := FillLow(w, n, b);
      r / Weight(n) == w / Weight(n) && r % Weight(n) == b * 0x0101_0101 % Weight(n)
  {
    if n == 1 {
      LowPart(w / 0x100, 0x100, b);
      LowPart(b * 0x01_0101, 0x100, b);
    } else if n == 2 {
      LowPart(w / 0x1_0000, 0x1_0000, b * 0x0101);
      LowPart(b * 0x0101, 0x1_0000, b * 0x0101);
    } else if n == 3 {
      LowPart(w / 0x100_0000, 0x100_0000, b * 0x01_0101);
      LowPart(b, 0x100_0000, b * 0x01_0101);
    }
  }

  lemma LowPart(q: int, weight: int, c: int)
    requires 0 <= c < weight && (weight == 0x100 || weight == 0x1_0000 || weight == 0x100_0000)
    ensures (weight * q + c) / weight == q && (weight * q + c) % weight == c
  {
    if weight == 0x100 {
      assert (0x100 * q + c) / 0x100 == q;
    } else if weight == 0x1_0000 {
      assert (0x1_0000 * q + c) / 0x1_0000 == q;
    } else {
      assert (0x100_0000 * q + c) / 0x100_0000 == q;
    }
  }

  /** Byte k of a word, lowest first. */
  function ByteOf(w: int, k: int): int
    requires 0 <= k < 4
  {
    if k == 0 then w % 0x100
    else if k == 1 then w / 0x100 % 0x100
    else if k == 2 then w / 0x1_0000 % 0x100
    else w / 0x100_0000 % 0x100
  }

  lemma ByteIs(r: int, k: int, q: int, low: int, b: int)
    requires 0 <= k < 4 && 0 <= b < 256
    requires if k == 0 then r == 0x100 * q + b else r == Weight(k) * (0x100 * q + b) + low && 0 <= low < Weight(k)
    ensures ByteOf(r, k) == b
  {
    LowPart(q, 0x100, b);
    if k > 0 { LowPart(0x100 * q + b, Weight(k), low); }
  }

  /** Each of the bytes set is b. */
  lemma FillLowBytes(w: MemLib.Word, n: int, b: int, k: int)
    requires 0 <= k < n <= 4 && 0 <= b < 256
    ensures ByteOf(FillLow(w, n, b), k) == b
  {
    hide ByteOf;
    var r := FillLow(w, n, b);
    var q := if n == 4 then 0 else w / Weight(n);
    if k == 0 {
      ByteIs(r, 0, if n == 1 then q else if n == 2 then 0x100 * q + b else if n == 3 then 0x1_0000 * q + 0x0101 * b
                   else 0x01_0101 * b, 0, b);
    } else if k == 1 {
      ByteIs(r, 1, if n == 2 then q else if n == 3 then 0x100 * q + b else 0x0101 * b, b, b);
    } else if k == 2 {
      ByteIs(r, 2, if n == 3 then q else b, 0x0101 * b, b);
    } else {
      ByteIs(r, 3, 0, 0x01_0101 * b, b);
    }
  }

  ghost predicate FilledAt(m0: seq<MemLib.Word>, m: Memory, p: int, i: int, n: int, b: int)
    requires i < n && 0 <= b < 256
  {
    0 <= p + i < |m| == |m0| ==> m[p + i] == FillLow(m0[p + i], Min(n - i, 4), b)
  }

  /**
   * m is m0 with the first k of the n bytes at p set to b, where k is a multiple of 4 or n
   * itself: no word beyond them is touched, and the last one keeps the bytes above the n.
   */
  ghost predicate Filled(m0: seq<MemLib.Word>, m: Memory, p: int, k: int, n: int, b: int)
    requires k <= n && 0 <= b < 256
  {
    && OnlyWithin(m0, m, p, p + k)
    && forall i {:trigger FilledAt(m0, m, p, i, n, b)} :: 0 <= i < k && i % 4 == 0 ==> FilledAt(m0, m, p, i, n, b)
  }

  /** Fills the first size bytes of a held payload, a word at a time. */
  method MemSet(mm: Allocator, p: int, b: int, size: int)
    requires mm.Valid() && p in mm.Held() && 0 <= size <= mm.Held()[p].size - 8 && 0 <= b < 256
    modifies mm.lib.cells
    ensures mm.Valid() && Filled(old(mm.lib.cells[..]), mm.View(), p, size, size, b)
    ensures Stamped(mm.View(), p, size, b)
    ensures Keeps(old(mm.View()), mm.View(), mm.Held() - {p})
  {
    hide Holds, Keeps, IsWord, Layout.Threaded, Layout.Classed, Layout.AllListed, Layout.Tiled, Coalesced;
    hide FillLow, Filled, Stamped;
    ghost var m, l := mm.lib.cells[..], mm.layout;
    HoldsTiled(m, l);
    ReadBlock(m, l, p);
    FilledNone(m, p, size, b);
    var i := 0;
    while i < size
      invariant 0 <= i && i % 4 == 0
      invariant Filled(m, mm.View(), p, Min(i, size), size, b)
    {
      CopiedWords(l, p, i);
      ghost var m1 := mm.View();
      FilledSoFar(m, m1, p, i, size, b);
      mm.Put(p + i, FillLow(mm.Get(p + i), Min(size - i, 4), b));
      FilledOneMore(m, m1, mm.View(), p, i, size, b);
      i := i + 4;
    }
    FilledWithin(m, mm.View(), p, size, b, End(l.blocks, p) - 8);
    PayloadHolds(m, l, p, mm.View());
    FilledStamps(m, mm.View(), p, size, b);
  }

  lemma FilledNone(m: seq<MemLib.Word>, p: int, n: int, b: int)
    requires 0 <= n && 0 <= b < 256
    ensures Filled(m, m, p, 0, n, b)
  {
  }

  lemma FilledWithin(m0: seq<MemLib.Word>, m: Memory, p: int, n: int, b: int, hi: int)
    requires 0 <= b < 256 && Filled(m0, m, p, n, n, b) && p + n <= hi
    ensures OnlyWithin(m0, m, p, hi)
  {
  }

  /** The next word is still as it was. */
  lemma FilledSoFar(m0: seq<MemLib.Word>, m: Memory, p: int, i: int, n: int, b: int)
    requires 0 <= i < n && 0 <= b < 256 && Filled(m0, m, p, i, n, b)
    ensures |m| == |m0| && (0 <= p + i < |m| ==> m[p + i] == m0[p + i])
  {
  }

  lemma FilledOneMore(m0: seq<MemLib.Word>, m: Memory, m1: Memory, p: int, i: int, n: int, b: int)
    requires 0 <= i < n && i % 4 == 0 && 0 <= b < 256 && |m| == |m0| && 0 <= p + i < |m|
    requires Filled(m0, m, p, i, n, b) && m1 == m[p + i := FillLow(m0[p + i], Min(n - i, 4), b)]
    ensures Filled(m0, m1, p, Min(i + 4, n), n, b)
  {
    hide FillLow;
    forall j | 0 <= j < Min(i + 4, n) && j % 4 == 0 ensures FilledAt(m0, m1, p, j, n, b) {
      if j < i {
        assert FilledAt(m0, m, p, j, n, b);
      } else {
        MultipleBetween(i, j);
      }
    }
  }

  lemma MultipleBetween(i: int, j: int)
    requires i % 4 == 0 && j % 4 == 0 && i <= j < i + 4
    ensures i == j
  {
    var a, c := i / 4, j / 4;
    assert i == 4 * a && j == 4 * c;
  }

  predicate StampAt(m: Memory, p: int, j: int, b: int) {
    0 <= p + j - j % 4 < |m| ==> ByteOf(m[p + j - j % 4], j % 4) == b
  }

  /** Each of the first n bytes at p is b. */
  ghost predicate Stamped(m: Memory, p: int, n: int, b: int) {
    forall j {:trigger StampAt(m, p, j, b)} :: 0 <= j < n ==> StampAt(m, p, j, b)
  }

  lemma FilledStamps(m0: seq<MemLib.Word>, m: Memory, p: int, n: int, b: int)
    requires 0 <= b < 256 && Filled(m0, m, p, n, n, b)
    ensures Stamped(m, p, n, b)
  {
    hide FillLow, ByteOf;
    forall j | 0 <= j < n ensures StampAt(m, p, j, b) {
      var i := j - j % 4;
      assert FilledAt(m0, m, p, i, n, b);
      if 0 <= p + i < |m| { FillLowBytes(m0[p + i], Min(n - i, 4), b, j % 4); }
    }
  }

  /** What leaves a payload alone leaves its bytes. */
  lemma StampKept(m: Memory, m': Memory, bs: Blocks, p: int, n: int, b: int)
    requires Keeps(m, m', bs) && p in bs && n <= bs[p].size - 8 && bs[p].size % 4 == 0 && Stamped(m, p, n, b)
    ensures Stamped(m', p, n, b)
  {
    hide ByteOf;
    assert SamePayload(m, m', p, bs[p]);
    forall j | 0 <= j < n ensures StampAt(m', p, j, b) { assert StampAt(m, p, j, b); }
  }

  lemma StampNone(m: Memory, p: int, b: int)
    ensures Stamped(m, p, 0, b)
  {
  }

  lemma StampLess(m: Memory, p: int, n: int, k: int, b: int)
    requires Stamped(m, p, n, b) && k <= n
    ensures Stamped(m, p, k, b)
  {
    forall j | 0 <= j < k ensures StampAt(m, p, j, b) {}
  }

  /** A byte read through a plain char, which is signed where the driver runs. */
  function CharOf(b: int): int { if b < 128 then b else b - 256 }

  lemma ByteRange(w: int, k: int)
    requires 0 <= k < 4
    ensures 0 <= ByteOf(w, k) < 256
  {
  }

  /**
   * The driver's comparison of the first n bytes at p with b. It reads them as chars: no char
   * equals a b of 128 or more, so the comparison is right only for a b below that.
   */
  method CheckData(mm: Allocator, p: int, n: int, b: int) returns (ok: bool)
    requires mm.Valid() && p in mm.Held() && 0 <= n <= mm.Held()[p].size - 8 && 0 <= b < 256
    ensures ok <==> n == 0 || (b < 128 && Stamped(mm.View(), p, n, b))
  {
    hide Holds, IsWord, Layout.Threaded, Layout.Classed, Layout.AllListed, Layout.Tiled, Coalesced, ByteOf;
    HoldsTiled(mm.View(), mm.layout);
    ReadBlock(mm.View(), mm.layout, p);
    var j := 0;
    while j < n
      invariant 0 <= j <= n && Stamped(mm.View(), p, j, b) && (j > 0 ==> b < 128)
    {
      var i := j - j % 4;
      CopiedWords(mm.layout, p, i);
      ByteRange(mm.Get(p + i), j % 4);
      if CharOf(ByteOf(mm.Get(p + i), j % 4)) != b {
        assert b < 128 ==> !StampAt(mm.View(), p, j, b);
        return false;
      }
      assert StampAt(mm.View(), p, j, b);
      j := j + 1;
    }
    return true;
  }
}
