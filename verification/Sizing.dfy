/** From the bytes a client requests to the bytes the allocator uses. */
module Sizing {

  const CHUNKSIZE := 512
  const BULK_CREATE_NUM := 8

  /** Rounds up to the nearest multiple of 8. */
  function Align(n: int): (r: int)
    ensures r % 8 == 0 && n <= r < n + 8
  {
    (n + 7) / 8 * 8
  }

  /** How far a request for a block of asize bytes moves the break if no listed block fits. */
  function Growth(asize: int): int {
    if asize <= CHUNKSIZE then BULK_CREATE_NUM * asize else asize
  }

  /** An 8-aligned size that covers n bytes covers n rounded up. */
  lemma AlignLeast(n: int, size: int)
    requires size % 8 == 0 && n <= size
    ensures Align(n) <= size
  {
    var k := size / 8;
    assert size == 8 * k;
  }
}
