/** The 32-bit boundary tag word: a size that is a multiple of 8, with three tag bits below it. */
module Tags {

  const WORD_LIMIT := 0x1_0000_0000

  const FREETAG := 0
  const ALLOCTAG := 1
  const BULKTAG := 2
  const MARKTAG := 4

  /** GET_SIZE. */
  function SizeOf(w: int): int { w - w % 8 }

  /** GET_ALLOC. */
  predicate IsAlloc(w: int) { w % 2 == 1 }

  /** GET_ISBULK: the bit itself, ready to be packed again. */
  function BulkBit(w: int): (b: int)
    ensures b == FREETAG || b == BULKTAG
  {
    if w / 2 % 2 == 1 then BULKTAG else FREETAG
  }

  /** GET_ISMARKED. */
  predicate IsMarked(w: int) { w / 4 % 2 == 1 }

  function TagBits(alloc: bool, bulk: bool): int {
    (if alloc then ALLOCTAG else FREETAG) + (if bulk then BULKTAG else FREETAG)
  }

  /** PACK, for a size whose low three bits are clear. */
  function Pack(size: int, tag: int): int { size + tag }

  lemma SizeDecodes(size: int, t: int)
    requires size % 8 == 0 && 0 <= t < 8
    ensures SizeOf(size + t) == size
  {
    var k := size / 8;
    assert size + t == 8 * k + t;
  }

  lemma AllocDecodes(size: int, t: int)
    requires size % 8 == 0 && 0 <= t < 8
    ensures IsAlloc(size + t) == IsAlloc(t)
  {
    var k := size / 8;
    assert size + t == 2 * (4 * k) + t;
  }

  lemma BulkDecodes(size: int, t: int)
    requires size % 8 == 0 && 0 <= t < 8
    ensures BulkBit(size + t) == BulkBit(t)
  {
    var k := size / 8;
    assert (size + t) / 2 == 2 * (2 * k) + t / 2;
  }

  lemma MarkDecodes(size: int, t: int)
    requires size % 8 == 0 && 0 <= t < 8
    ensures IsMarked(size + t) == IsMarked(t)
  {
    var k := size / 8;
    assert (size + t) / 4 == 2 * k + t / 4;
  }

  /** Every mask recovers what was packed. */
  lemma PackDecodes(size: int, alloc: bool, bulk: bool, mark: bool)
    requires size % 8 == 0
    ensures
      var w := Pack(size, TagBits(alloc, bulk) + if mark then MARKTAG else 0);
      && SizeOf(w) == size
      && IsAlloc(w) == alloc
      && BulkBit(w) == (if bulk then BULKTAG else FREETAG)
      && IsMarked(w) == mark
  {
    hide SizeOf, IsAlloc, BulkBit, IsMarked;
    var t := TagBits(alloc, bulk) + if mark then MARKTAG else 0;
    SizeDecodes(size, t);
    AllocDecodes(size, t);
    BulkDecodes(size, t);
    MarkDecodes(size, t);
    TagsDecode(alloc, bulk, mark);
  }

  lemma TagsDecode(alloc: bool, bulk: bool, mark: bool)
    ensures
      var t := TagBits(alloc, bulk) + if mark then MARKTAG else 0;
      && IsAlloc(t) == alloc && BulkBit(t) == (if bulk then BULKTAG else FREETAG) && IsMarked(t) == mark
  {
  }

  /** a is the address of an aligned word between lo and hi. */
  predicate IsWord(lo: int, hi: int, a: int) { lo <= a && a + 4 <= hi && a % 4 == 0 }

  lemma QuadMultiple(k: int)
    ensures 4 * k % 4 == 0
  {
  }

  lemma OctetMultiple(p: int)
    requires p % 8 == 0
    ensures p == 4 * (2 * (p / 8))
  {
  }

  lemma WordsBelow(lo: int, hi: int, p: int)
    requires p % 8 == 0 && lo <= p - 8 && p <= hi
    ensures IsWord(lo, hi, p - 8) && IsWord(lo, hi, p - 4)
  {
    OctetMultiple(p);
    var k := 2 * (p / 8);
    QuadMultiple(k - 2);
    QuadMultiple(k - 1);
    assert p - 8 == 4 * (k - 2) && p - 4 == 4 * (k - 1);
  }

  lemma WordsFrom(lo: int, hi: int, p: int)
    requires p % 8 == 0 && lo <= p && p + 8 <= hi
    ensures IsWord(lo, hi, p) && IsWord(lo, hi, p + 4)
  {
    OctetMultiple(p);
    var k := 2 * (p / 8);
    QuadMultiple(k);
    QuadMultiple(k + 1);
    assert p == 4 * k && p + 4 == 4 * (k + 1);
  }

  /** The words on both sides of an 8-aligned address are aligned. */
  lemma WordsAround(lo: int, hi: int, p: int)
    requires p % 8 == 0
    ensures lo <= p - 8 && p <= hi ==> IsWord(lo, hi, p - 8) && IsWord(lo, hi, p - 4)
    ensures lo <= p && p + 8 <= hi ==> IsWord(lo, hi, p) && IsWord(lo, hi, p + 4)
  {
    hide IsWord;
    if lo <= p - 8 && p <= hi { WordsBelow(lo, hi, p); }
    if lo <= p && p + 8 <= hi { WordsFrom(lo, hi, p); }
  }

  lemma WordBounds(lo: int, hi: int, a: int)
    requires IsWord(lo, hi, a)
    ensures lo <= a && a + 4 <= hi
  {
  }

  lemma OctetIsQuad(n: int)
    requires n % 8 == 0
    ensures n % 4 == 0
  {
    OctetMultiple(n);
    QuadMultiple(2 * (n / 8));
  }

  lemma OctetSum(p: int, n: int)
    requires p % 8 == 0 && n % 8 == 0
    ensures (p + n) % 8 == 0 && (p - n) % 8 == 0
  {
    var j, k := p / 8, n / 8;
    assert p + n == 8 * (j + k) && p - n == 8 * (j - k);
  }
}
