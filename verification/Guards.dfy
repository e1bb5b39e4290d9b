/** The unsigned comparison that mm_realloc uses to choose its branch. */
module Guards {
  import opened Tags

  const MIN_BLOCK_SIZE := 16

  /** Subtraction of size_t values. */
  function Minus(a: int, b: int): int { (a - b) % WORD_LIMIT }

  /** The comparison as it is coded. */
  predicate TakesShrinkBranch(origSize: int, newAsize: int) { Minus(origSize, newAsize) >= MIN_BLOCK_SIZE }

  /** The comparison its comment describes, over the integers. */
  predicate ShouldShrink(origSize: int, newAsize: int) { origSize - newAsize >= MIN_BLOCK_SIZE }

  /** The two agree exactly when the block is not asked to grow. */
  lemma GuardAgrees(origSize: int, newAsize: int)
    requires 16 <= origSize < WORD_LIMIT && 16 <= newAsize < WORD_LIMIT
    ensures TakesShrinkBranch(origSize, newAsize) == ShouldShrink(origSize, newAsize) <==> newAsize <= origSize
  {
    if newAsize > origSize {
      assert Minus(origSize, newAsize) == origSize - newAsize + WORD_LIMIT;
    }
  }

  /** A request that leaves 16 bytes or more takes the branch. */
  lemma ShrinkTaken(origSize: int, newAsize: int)
    requires 0 <= newAsize && newAsize + MIN_BLOCK_SIZE <= origSize < WORD_LIMIT
    ensures TakesShrinkBranch(origSize, newAsize)
  {
  }

  /** So the code behind both tests, which would merge or move the block, is never reached. */
  lemma GrowthUnreachable(origSize: int, newAsize: int)
    requires 16 <= origSize < WORD_LIMIT && 16 <= newAsize < WORD_LIMIT
    ensures TakesShrinkBranch(origSize, newAsize) || newAsize <= origSize
  {
    GuardAgrees(origSize, newAsize);
  }

  /** A block of 16 bytes asked to hold 100: the coded guard shrinks it "down" to 112. */
  lemma GrowthShrinks()
    ensures TakesShrinkBranch(16, 112) && !ShouldShrink(16, 112)
  {
    assert Minus(16, 112) == WORD_LIMIT - 96;
  }
}
