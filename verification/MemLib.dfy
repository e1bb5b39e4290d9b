/** The simulated memory system: one array of memory with a break that only grows. */
module MemLib {

  const MAX_HEAP := 64 * 1024 * 1024
  const ENOMEM := 12

  /** What mem_sbrk returns on failure, (void *)-1. */
  const SBRK_FAILED := -1

  /** A 32-bit unsigned word. */
  type Word = w: int | 0 <= w < 0x1_0000_0000

  /** Pointers are 32 bits wide; no storage lies in the last page of the address space. */
  const ADDRESS_LIMIT := 0x1_0000_0000
  const LAST_PAGE := 0xffff_f000

  /** The sum of a pointer and an increment, as the machine forms it. */
  function Advance(brk: int, incr: int): int { (brk + incr) % ADDRESS_LIMIT }

  /** mem_sbrk's comparison tells whether the heap would overrun, exactly if the sum does not wrap. */
  lemma SbrkTestExact(brk: int, incr: int, maxAddr: int)
    requires 0 < brk <= maxAddr < LAST_PAGE && 0 <= incr < 0x8000_0000
    ensures (Advance(brk, incr) > maxAddr <==> brk + incr > maxAddr) <==> brk + incr < ADDRESS_LIMIT
  {
    if brk + incr >= ADDRESS_LIMIT {
      assert Advance(brk, incr) == brk + incr - ADDRESS_LIMIT;
    }
  }

  class Heap {
    /** The word at each 4-aligned byte address; other indices are never used. */
    const cells: array<Word>
    const startBrk: int
    const maxAddr: int
    var brk: int
    var errno: int

    ghost predicate Valid()
      reads this
    {
      && 0 < startBrk <= brk <= maxAddr && startBrk % 8 == 0
      && maxAddr - startBrk < 0x8000_0000 && cells.Length == maxAddr < LAST_PAGE
    }

    /** mem_init, given the address the storage was allocated at. */
    constructor (start: int)
      requires 0 < start && start % 8 == 0 && start + MAX_HEAP < LAST_PAGE
      ensures Valid() && fresh(cells)
      ensures startBrk == brk == start && maxAddr == start + MAX_HEAP && errno == 0
    {
      startBrk, brk, maxAddr := start, start, start + MAX_HEAP;
      cells := new Word[start + MAX_HEAP];
      errno := 0;
    }

    method ResetBrk()
      requires Valid()
      modifies this`brk
      ensures Valid() && brk == startBrk
    {
      brk := startBrk;
    }

    /**
     * Extends the heap by incr bytes and returns where they start; the heap never shrinks. If the
     * pointer sum wraps, its test passes and the break ends up below the storage.
     */
    method Sbrk(incr: int) returns (p: int)
      requires Valid()
      requires -0x8000_0000 <= incr < 0x8000_0000
      modifies this`brk, this`errno
      ensures old(brk) + incr < ADDRESS_LIMIT ==> Valid()
      ensures 0 <= incr <= maxAddr - old(brk) ==> p == old(brk) && brk == old(brk) + incr && errno == old(errno)
      ensures incr < 0 || maxAddr - old(brk) < incr < ADDRESS_LIMIT - old(brk) ==>
        p == SBRK_FAILED && brk == old(brk) && errno == ENOMEM
      ensures old(brk) + incr >= ADDRESS_LIMIT ==>
        p == old(brk) && brk == old(brk) + incr - ADDRESS_LIMIT < startBrk && errno == old(errno)
    {
      var oldBrk := brk;
      if incr >= 0 { SbrkTestExact(brk, incr, maxAddr); }
      if incr < 0 || Advance(brk, incr) > maxAddr {
        errno := ENOMEM;
        return SBRK_FAILED;
      }
      brk := Advance(brk, incr);
      return oldBrk;
    }

    function Lo(): int { startBrk }

    function Hi(): int
      reads this
    {
      brk - 1
    }

    function Size(): int
      reads this
    {
      brk - startBrk
    }
  }
}
