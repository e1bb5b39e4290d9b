/** The 32 size classes of the segregated free lists. */
module SizeClasses {

  const SIZE_CLASS_NUM := 32

  /** The class whose list a block of `asize` bytes belongs to. */
  function GetSizeClass(asize: int): (c: int)
    ensures 0 <= c < SIZE_CLASS_NUM
  {
    if asize <= 0x10 then 0
    else if asize <= 0x20 then 1
    else if asize <= 0x30 then 2
    else if asize <= 0x40 then 3
    else if asize <= 0x50 then 4
    else if asize <= 0x60 then 5
    else if asize <= 0x70 then 6
    else if asize <= 0x80 then 7
    else if asize <= 0xa0 then 8
    else if asize <= 0xc0 then 9
    else if asize <= 0xe0 then 10
    else if asize <= 0x100 then 11
    else if asize <= 0x140 then 12
    else if asize <= 0x180 then 13
    else if asize <= 0x1c0 then 14
    else if asize <= 0x200 then 15
    else if asize <= 0x280 then 16
    else if asize <= 0x300 then 17
    else if asize <= 0x380 then 18
    else if asize <= 0x400 then 19
    else if asize <= 0x500 then 20
    else if asize <= 0x600 then 21
    else if asize <= 0x700 then 22
    else if asize <= 0x800 then 23
    else if asize <= 0xc00 then 24
    else if asize <= 0x1000 then 25
    else if asize <= 0x1800 then 26
    else if asize <= 0x2000 then 27
    else if asize <= 0x3000 then 28
    else if asize <= 0x4000 then 29
    else if asize <= 0x5000 then 30
    else 31
  }

  /** The size every block in list `c` exceeds; past the last class, the largest 31-bit size. */
  function GetLowerBound(c: int): (b: int)
  {
    match c
    case 0 => 0
    case 1 => 0x10
    case 2 => 0x20
    case 3 => 0x30
    case 4 => 0x40
    case 5 => 0x50
    case 6 => 0x60
    case 7 => 0x70
    case 8 => 0x80
    case 9 => 0xa0
    case 10 => 0xc0
    case 11 => 0xe0
    case 12 => 0x100
    case 13 => 0x140
    case 14 => 0x180
    case 15 => 0x1c0
    case 16 => 0x200
    case 17 => 0x280
    case 18 => 0x300
    case 19 => 0x380
    case 20 => 0x400
    case 21 => 0x500
    case 22 => 0x600
    case 23 => 0x700
    case 24 => 0x800
    case 25 => 0xc00
    case 26 => 0x1000
    case 27 => 0x1800
    case 28 => 0x2000
    case 29 => 0x3000
    case 30 => 0x4000
    case 31 => 0x5000
    case _ => 0x7fffffff
  }

  /** A size lies in the half-open interval of exactly one class: the one GetSizeClass picks. */
  lemma ClassInterval(asize: int, c: int)
    requires 0 < asize <= 0x7fffffff
    requires 0 <= c < SIZE_CLASS_NUM
    ensures GetSizeClass(asize) == c <==> GetLowerBound(c) < asize <= GetLowerBound(c + 1)
  {
  }

  /** Class bounds increase, so every block of a higher list exceeds every size of a lower class. */
  lemma BoundsIncrease(c: int, d: int)
    requires 0 <= c < d <= SIZE_CLASS_NUM
    ensures GetLowerBound(c) < GetLowerBound(d)
  {
  }

  /** A larger size is never in a lower class. */
  lemma ClassesOrdered(a: int, b: int)
    requires a <= b
    ensures GetSizeClass(a) <= GetSizeClass(b)
  {
  }

  /**
   * The bounds: 16 apart up to 0x80, four to a doubling up to 0x800, two to a doubling up to
   * 0x2000, and 0x1000 apart from there.
   */
  lemma BoundsByOctave(c: int)
    requires 0 <= c < SIZE_CLASS_NUM
    ensures GetLowerBound(c) ==
      if c <= 8 then 16 * c
      else if c <= 24 then var octave, step := (c - 8) / 4, (c - 8) % 4;
        if octave == 0 then 0x80 + 0x20 * step
        else if octave == 1 then 0x100 + 0x40 * step
        else if octave == 2 then 0x200 + 0x80 * step
        else if octave == 3 then 0x400 + 0x100 * step
        else 0x800
      else if c <= 28 then var octave, step := (c - 24) / 2, (c - 24) % 2;
        if octave == 0 then 0x800 + 0x400 * step
        else if octave == 1 then 0x1000 + 0x800 * step
        else 0x2000
      else 0x2000 + 0x1000 * (c - 28)
  {
  }
}
