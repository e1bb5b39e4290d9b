/** The empty heap that mm_init sets up. */
module Starting {
  import opened SizeClasses
  import opened Tags
  import opened Blocks
  import opened Rings
  import opened Layouts
  import opened Heaps
  import opened Extending

  /** No blocks, and 32 rings of a root alone. */
  function EmptyLayout(base: int): Layout {
    Layout(base, base + PREAMBLE, map[], map[], seq(SIZE_CLASS_NUM, c => [base + 8 * c, base + 8 * c]))
  }

  /** Root c points at itself in both directions. */
  ghost predicate SelfLinked(m: Memory, base: int, c: int) {
    0 <= base + 8 * c && base + 8 * c + 4 < |m| && m[base + 8 * c] == base + 8 * c
      && m[base + 8 * c + 4] == base + 8 * c
  }

  /** The first n roots point at themselves. */
  ghost predicate RootsLinked(m: Memory, base: int, n: int) {
    forall c {:trigger SelfLinked(m, base, c)} :: 0 <= c < n ==> SelfLinked(m, base, c)
  }

  lemma NoRootsYet(m: Memory, base: int)
    ensures RootsLinked(m, base, 0)
  {
  }

  lemma RootLinked(m: Memory, base: int, i: int)
    requires RootsLinked(m, base, i) && 0 < base && 0 <= i && base + 8 * i + 4 < |m|
    ensures RootsLinked(m[base + 8 * i := base + 8 * i][base + 8 * i + 4 := base + 8 * i], base, i + 1)
  {
    var p := base + 8 * i;
    var m' := m[p := p][p + 4 := p];
    forall c | 0 <= c < i + 1 ensures SelfLinked(m', base, c) {
      if c < i { assert SelfLinked(m, base, c); }
    }
  }

  /** Prologue and epilogue lie behind the roots. */
  lemma FencedRoots(m: Memory, base: int)
    requires RootsLinked(m, base, SIZE_CLASS_NUM) && 0 < base && base + PREAMBLE <= |m|
    ensures
      var w := Pack(8, ALLOCTAG);
      var m' := m[base + 260 := w][base + 264 := w][base + 268 := Pack(0, ALLOCTAG)];
      && RootsLinked(m', base, SIZE_CLASS_NUM)
      && m'[base + 260] == w && m'[base + 264] == w && m'[base + 268] == Pack(0, ALLOCTAG)
  {
    var w := Pack(8, ALLOCTAG);
    var m' := m[base + 260 := w][base + 264 := w][base + 268 := Pack(0, ALLOCTAG)];
    forall c | 0 <= c < SIZE_CLASS_NUM ensures SelfLinked(m', base, c) { assert SelfLinked(m, base, c); }
  }

  lemma EmptyHolds(m: Memory, base: int)
    requires 0 < base && base % 8 == 0 && base + PREAMBLE <= |m| && RootsLinked(m, base, SIZE_CLASS_NUM)
    requires m[base + 260] == Pack(8, ALLOCTAG) && m[base + 264] == Pack(8, ALLOCTAG)
      && m[base + 268] == Pack(0, ALLOCTAG)
    ensures
      var l := EmptyLayout(base);
      Holds(m, l) && l.AllListed() && l.Classed() && Coalesced(l.blocks) && Live(l.blocks) == map[]
  {
    var l := EmptyLayout(base);
    forall c | 0 <= c < |l.rings| ensures l.RingAt(c) && Linked(m, l.rings[c]) {
      assert SelfLinked(m, base, c);
    }
  }

  lemma FencePacks()
    ensures 0 <= Pack(0, ALLOCTAG) < WORD_LIMIT
  {
  }
}
