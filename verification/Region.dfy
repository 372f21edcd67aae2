/** Sizing of the UMEM region and the layout of frames inside it. */
module Region {
  import opened Words
  import opened Frames

  const HUGE_PAGE: nat := 0x20_0000
  const SMALL_PAGE: nat := 4096

  /** `(size + align_to - 1U) & ~(align_to - 1U)` */
  function AlignUp(size: nat, alignTo: nat): (r: nat)
    requires 1 <= alignTo <= WORD
  {
    BitAnd(Wrap(size + alignTo - 1), Complement(alignTo - 1))
  }

  /** Is r the least multiple of p not below size? */
  ghost predicate IsLeastMultiple(r: nat, size: nat, p: nat)
    requires p >= 1
  {
    r % p == 0 && size <= r < size + p && forall m: nat :: size <= m && m % p == 0 ==> r <= m
  }

  /** Without overflow, align_up gives the least multiple of a power of two not below the size. */
  lemma AlignUpIsLeast(size: nat, k: nat)
    requires k <= 63 && size + Pow2(k) - 1 < WORD
    ensures Pow2(k) <= WORD && IsLeastMultiple(AlignUp(size, Pow2(k)), size, Pow2(k))
  {
    var p := Pow2(k);
    AlignUpExact(size, k, p);
    RoundedUp(AlignUp(size, p), size + p - 1, size, p);
  }

  lemma AlignUpExact(size: nat, k: nat, p: nat)
    requires k <= 63 && p == Pow2(k) && p <= WORD && size + p - 1 < WORD
    ensures AlignUp(size, p) == size + p - 1 - (size + p - 1) % p
  {
    AlignUpValue(size, k, p);
  }

  lemma RoundedUp(r: nat, x: nat, size: nat, p: nat)
    requires p >= 1 && x == size + p - 1 && r == x - x % p
    ensures IsLeastMultiple(r, size, p)
  {
    RoundDown(x, p);
    LeastMultiple(r, size, p);
  }

  lemma LeastMultiple(r: nat, size: nat, p: nat)
    requires p >= 1 && r % p == 0 && r < size + p
    ensures forall m: nat :: size <= m && m % p == 0 ==> r <= m
  {
    forall m: nat | size <= m && m % p == 0
      ensures r <= m
    {
      MultiplesApart(r, m, p);
    }
  }

  lemma AlignUpValue(size: nat, k: nat, p: nat)
    requires k <= 63 && p == Pow2(k) && p <= WORD
    ensures var x := Wrap(size + p - 1); AlignUp(size, p) == x - x % p
  {
    WordIsPow2();
    ClearLowBits(Wrap(size + p - 1), k, 64, p, WORD);
    assert Complement(p - 1) == WORD - p;
  }

  lemma RoundDown(x: nat, p: nat)
    requires p >= 1
    ensures x - x % p <= x < x - x % p + p && (x - x % p) % p == 0
  {
    var q := x / p;
    assert x - x % p == p * q;
    ModUnique(p * q, p, q, 0);
  }

  lemma MultiplesApart(a: nat, b: nat, p: nat)
    requires p >= 1 && a % p == 0 && b % p == 0 && a < b + p
    ensures a <= b
  {
    var i, j := a / p, b / p;
    assert a == p * i && b == p * j;
    assert p * (i - j) == a - b;
    MulBounds(p, i - j);
  }

  /** The pages the region is mapped with. */
  datatype Mapping = Mapped(size: nat, huge: bool) | MapFailed

  /** allocate_region: huge pages if asked for and available, else standard pages, else failure.
      A mapping of no bytes is always refused. */
  function AllocateRegion(c: Config, useHuge: bool, hugeMapped: bool, smallMapped: bool): (r: Mapping) {
    var raw := Wrap(c.frameSize * c.frameCount);
    var huge, small := AlignUp(raw, HUGE_PAGE), AlignUp(raw, SMALL_PAGE);
    if useHuge && hugeMapped && huge > 0 then Mapped(huge, true)
    else if smallMapped && small > 0 then Mapped(small, false)
    else MapFailed
  }

  /** Do all frames, at their 64-bit offsets, lie inside a region of the given size? */
  ghost predicate FramesInside(c: Config, size: nat) {
    forall idx: nat :: idx < c.frameCount ==> FrameOffset(c, idx) + c.frameSize <= size
  }

  lemma PageIsPow2(huge: bool)
    ensures (if huge then HUGE_PAGE else SMALL_PAGE) == Pow2(if huge then 21 else 12)
  {
    assert Pow2(8) == 256 && Pow2(4) == 16 && Pow2(5) == 32;
    Pow2Add(8, 4);
    Pow2Add(8, 8);
    Pow2Add(16, 5);
  }

  /** A mapped region holds every frame if and only if frame_size * frame_count, rounded up to
      the page used, fits a 64-bit word. */
  lemma RegionHoldsFrames(c: Config, useHuge: bool, hugeMapped: bool, smallMapped: bool)
    ensures var m := AllocateRegion(c, useHuge, hugeMapped, smallMapped);
            m.Mapped? ==>
              (FramesInside(c, m.size)
               <==> c.frameSize * c.frameCount + (if m.huge then HUGE_PAGE else SMALL_PAGE) - 1 < WORD)
  {
    var m := AllocateRegion(c, useHuge, hugeMapped, smallMapped);
    if m.Mapped? {
      MappedHolds(c, m, c.frameSize * c.frameCount);
    }
  }

  lemma MappedHolds(c: Config, m: Mapping, raw: nat)
    requires m.Mapped? && m.size > 0 && raw == c.frameSize * c.frameCount
    requires m.size == AlignUp(Wrap(raw), if m.huge then HUGE_PAGE else SMALL_PAGE)
    ensures FramesInside(c, m.size) <==> raw + (if m.huge then HUGE_PAGE else SMALL_PAGE) - 1 < WORD
  {
    if raw == 0 {
      NothingToAlign(Wrap(raw), m.huge);
      assert false;
    }
    PositiveFactors(c.frameSize, c.frameCount);
    RegionSize(raw, m.huge);
    if raw < WORD {
      LastFrameDecides(c, m.size);
    } else {
      AlignedFits(Wrap(raw), m.huge);
      OverflowStraddles(c, m.size);
    }
  }

  lemma PositiveFactors(a: nat, b: nat)
    requires a * b > 0
    ensures a >= 1 && b >= 1
  {
  }

  lemma NothingToAlign(size: nat, huge: bool)
    requires size == 0
    ensures AlignUp(size, if huge then HUGE_PAGE else SMALL_PAGE) == 0
  {
    var page := if huge then HUGE_PAGE else SMALL_PAGE;
    PageIsPow2(huge);
    AlignUpValue(size, if huge then 21 else 12, page);
    ModUnique(page - 1, page, 0, page - 1);
  }

  lemma AlignedFits(size: nat, huge: bool)
    ensures AlignUp(size, if huge then HUGE_PAGE else SMALL_PAGE) < WORD
  {
    PageIsPow2(huge);
    AlignUpValue(size, if huge then 21 else 12, if huge then HUGE_PAGE else SMALL_PAGE);
  }

  lemma OffsetFits(c: Config, idx: nat)
    requires idx < c.frameCount && c.frameSize * c.frameCount <= WORD && c.frameSize >= 1
    ensures FrameOffset(c, idx) == idx * c.frameSize
    ensures FrameOffset(c, idx) + c.frameSize <= c.frameSize * c.frameCount
  {
    var a := idx * c.frameSize;
    assert a + c.frameSize <= c.frameSize * c.frameCount by { MulLess(idx, c.frameCount, c.frameSize); }
  }

  /** Without overflow the last frame decides. */
  lemma LastFrameDecides(c: Config, size: nat)
    requires c.frameCount >= 1 && c.frameSize >= 1 && c.frameSize * c.frameCount < WORD
    ensures FramesInside(c, size) <==> c.frameSize * c.frameCount <= size
  {
    var raw := c.frameSize * c.frameCount;
    forall idx: nat | idx < c.frameCount
      ensures FrameOffset(c, idx) + c.frameSize <= raw
    {
      OffsetFits(c, idx);
    }
    assert FrameOffset(c, c.frameCount - 1) + c.frameSize == raw by { LastEnds(c); }
  }

  lemma LastEnds(c: Config)
    requires c.frameCount >= 1 && c.frameSize >= 1 && c.frameSize * c.frameCount < WORD
    ensures FrameOffset(c, c.frameCount - 1) + c.frameSize == c.frameSize * c.frameCount
  {
    OffsetFits(c, c.frameCount - 1);
    assert (c.frameCount - 1) * c.frameSize + c.frameSize == c.frameCount * c.frameSize;
  }

  /** With overflow, one frame starts below 2^64 and ends at or above it, outside any mapping. */
  lemma OverflowStraddles(c: Config, size: nat)
    requires c.frameSize >= 1 && c.frameSize * c.frameCount >= WORD && size < WORD
    ensures !FramesInside(c, size)
  {
    var idx := (WORD - 1) / c.frameSize;
    assert idx * c.frameSize <= WORD - 1 < (idx + 1) * c.frameSize by { DivBounds(WORD - 1, c.frameSize); }
    assert idx < c.frameCount by {
      if idx >= c.frameCount {
        MulOrder(c.frameCount, idx, c.frameSize);
      }
    }
    assert FrameOffset(c, idx) == idx * c.frameSize;
    assert (idx + 1) * c.frameSize == idx * c.frameSize + c.frameSize;
    assert FrameOffset(c, idx) + c.frameSize > size;
  }

  lemma DivBounds(x: nat, n: nat)
    requires n >= 1
    ensures x / n * n <= x < (x / n + 1) * n
  {
    assert x == x / n * n + x % n;
  }

  lemma MulOrder(a: nat, b: nat, n: nat)
    requires a <= b
    ensures a * n <= b * n
  {
    assert b * n == a * n + (b - a) * n;
  }

  lemma RegionSize(raw: nat, huge: bool)
    requires raw >= 1
    ensures var page := if huge then HUGE_PAGE else SMALL_PAGE;
            raw <= AlignUp(Wrap(raw), page) <==> raw + page - 1 < WORD
  {
    var page := if huge then HUGE_PAGE else SMALL_PAGE;
    var k := if huge then 21 else 12;
    PageIsPow2(huge);
    AlignUpValue(Wrap(raw), k, page);
    if raw + page - 1 < WORD {
      RoundDown(raw + page - 1, page);
    } else if raw < WORD {
      var x := raw + page - 1 - WORD;
      ModUnique(x, page, 0, x);
    }
  }

  /** Without overflow distinct frames never overlap. */
  lemma FramesDisjoint(c: Config, i: nat, j: nat)
    requires i < j < c.frameCount && c.frameSize >= 1 && c.frameSize * c.frameCount <= WORD
    ensures FrameOffset(c, i) + c.frameSize <= FrameOffset(c, j)
  {
    OffsetFits(c, i);
    OffsetFits(c, j);
    MulLess(i, j, c.frameSize);
  }

  /** A concrete size that overflows: 2^52 + 1 frames of 4096 bytes in a mapping of 4096 bytes. */
  lemma OverflowingRegion(c: Config)
    requires c.frameSize == 4096 && c.frameCount == 0x10_0000_0000_0001
    ensures AllocateRegion(c, false, false, true) == Mapped(4096, false) && !FramesInside(c, 4096)
  {
    var raw := Wrap(c.frameSize * c.frameCount);
    assert raw == 4096;
    assert AlignUp(raw, SMALL_PAGE) == 4096 by {
      PageIsPow2(false);
      AlignUpValue(raw, 12, SMALL_PAGE);
      ModUnique(8191, 4096, 1, 4095);
    }
    OverflowStraddles(c, 4096);
  }
}
