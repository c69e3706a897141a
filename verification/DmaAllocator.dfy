/** The DMA allocator: huge-page rounding, address translation and the contiguity check. */
module DmaAllocator {
  import opened RingIndex

  const HUGE_PAGE: nat := 0x20_0000
  const WORD: nat := 0x1_0000_0000_0000_0000

  // -- rounding ----------------------------------------------------------------------------------

  /** The rounding of memory_allocate_dma and of the DMA allocator, in 64-bit arithmetic. */
  function RoundUp(size: nat): nat {
    if size % HUGE_PAGE != 0 then ((size / HUGE_PAGE + 1) * HUGE_PAGE) % WORD else size
  }

  /** r is the least multiple of 2 MB that is not below size. */
  ghost predicate LeastMultiple(size: nat, r: nat) {
    && r % HUGE_PAGE == 0 && r >= size
    && forall m: nat | m % HUGE_PAGE == 0 && m >= size :: r <= m
  }

  /** The rounding is right exactly for sizes whose rounded value still fits 64 bits. */
  lemma RoundUpIsLeastMultiple(size: nat)
    requires size < WORD
    ensures LeastMultiple(size, RoundUp(size)) <==> size <= WORD - HUGE_PAGE
  {
    var q := size / HUGE_PAGE;
    if size % HUGE_PAGE == 0 {
    } else if size <= WORD - HUGE_PAGE {
      assert RoundUp(size) == (q + 1) * HUGE_PAGE;
      forall m: nat | m % HUGE_PAGE == 0 && m >= size ensures RoundUp(size) <= m {}
    } else {
      assert (q + 1) * HUGE_PAGE == WORD;
    }
  }

  // -- translation -------------------------------------------------------------------------------

  /** A pagemap: one 64-bit entry per page, zero if the page cannot be translated. */
  type PageMap = nat -> nat

  /** Bits 0-54 are the frame number. */
  function Frame(entry: nat): nat { entry % 0x80_0000_0000_0000 }

  function VirtToPhys(pm: PageMap, ps: nat, virt: nat): nat
    requires ps > 0
  {
    (Frame(pm(virt / ps)) * ps + virt % ps) % WORD
  }

  datatype Outcome = Answer(continuous: bool) | Abort

  predicate ByteInPlace(pm: PageMap, ps: nat, base: nat, off: nat)
    requires ps > 0
  {
    VirtToPhys(pm, ps, base + off) == (VirtToPhys(pm, ps, base) + off) % WORD
  }

  /** Every byte of the block lies where contiguity says, in 64-bit arithmetic. */
  ghost predicate Contiguous(pm: PageMap, ps: nat, base: nat, size: nat)
    requires ps > 0
  {
    forall off: nat | off < size :: ByteInPlace(pm, ps, base, off)
  }

  /** The loop's test on page k of the block. */
  predicate PageInPlace(pm: PageMap, ps: nat, base: nat, k: nat)
    requires ps > 0
  {
    (VirtToPhys(pm, ps, base) + k * ps) % WORD == VirtToPhys(pm, ps, base + k * ps)
  }

  predicate Mapped(pm: PageMap, ps: nat, base: nat, k: nat)
    requires ps > 0
  {
    pm((base + k * ps) / ps) != 0
  }

  lemma DivModOf(ps: nat, q: nat, r: nat)
    requires r < ps
    ensures (q * ps + r) / ps == q && (q * ps + r) % ps == r
  {
    ModUnique(q * ps + r, ps, q, r);
  }

  lemma ModAdd(a: nat, b: nat, r: nat)
    requires a % WORD == b % WORD
    ensures (a + r) % WORD == (b + r) % WORD
  {
  }

  lemma TranslationOf(pm: PageMap, ps: nat, p: nat, r: nat)
    requires r < ps
    ensures VirtToPhys(pm, ps, p * ps + r) == (Frame(pm(p)) * ps + r) % WORD
  {
    DivModOf(ps, p, r);
  }

  lemma PageStart(base: nat, ps: nat, k: nat)
    requires ps > 0 && base % ps == 0
    ensures base + k * ps == (base / ps + k) * ps
  {
    assert (base / ps + k) * ps == base / ps * ps + k * ps;
  }

  /** If page k starts in place, all of it is in place. */
  lemma PageCoversBytes(pm: PageMap, ps: nat, base: nat, k: nat, r: nat)
    requires ps > 0 && base % ps == 0 && r < ps && PageInPlace(pm, ps, base, k)
    ensures ByteInPlace(pm, ps, base, k * ps + r)
  {
    var p, start := base / ps + k, k * ps;
    PageStart(base, ps, k);
    TranslationOf(pm, ps, p, 0);
    TranslationOf(pm, ps, p, r);
    ModAdd(Frame(pm(p)) * ps, VirtToPhys(pm, ps, base) + start, r);
    assert base + (start + r) == p * ps + r;
  }

  /** Byte `off` is byte r of page k. */
  lemma PageOf(off: nat, ps: nat, pages: nat) returns (k: nat, r: nat)
    requires ps > 0 && off < pages * ps
    ensures k < pages && r < ps && off == k * ps + r
  {
    k, r := off / ps, off % ps;
    assert off == k * ps + r;
    if k >= pages { AtLeast(k, pages, ps); }
  }

  lemma AtLeast(k: nat, pages: nat, ps: nat)
    requires k >= pages
    ensures k * ps >= pages * ps
  {
    assert k * ps == pages * ps + (k - pages) * ps;
  }

  lemma ByteOfPage(pm: PageMap, ps: nat, base: nat, off: nat, pages: nat)
    requires ps > 0 && base % ps == 0 && off < pages * ps
    requires forall k | 0 <= k < pages :: PageInPlace(pm, ps, base, k)
    ensures ByteInPlace(pm, ps, base, off)
  {
    var k, r := PageOf(off, ps, pages);
    PageCoversBytes(pm, ps, base, k, r);
  }

  lemma PagesGiveContiguity(pm: PageMap, ps: nat, base: nat, size: nat, pages: nat)
    requires ps > 0 && base % ps == 0 && size <= pages * ps
    requires forall k | 0 <= k < pages :: PageInPlace(pm, ps, base, k)
    ensures Contiguous(pm, ps, base, size)
  {
    forall off: nat | off < size ensures ByteInPlace(pm, ps, base, off) { ByteOfPage(pm, ps, base, off, pages); }
  }

  /** A page of the block that cannot be translated, reached because all before it are in place. */
  ghost predicate StuckAt(pm: PageMap, ps: nat, base: nat, size: nat, k: nat)
    requires ps > 0
  {
    && k * ps < size && !Mapped(pm, ps, base, k)
    && forall m: nat | m < k :: Mapped(pm, ps, base, m) && PageInPlace(pm, ps, base, m)
  }

  ghost predicate AllMapped(pm: PageMap, ps: nat, base: nat, size: nat)
    requires ps > 0
  {
    forall k: nat | k * ps < size :: Mapped(pm, ps, base, k)
  }

  /** is_phys_continuous. It answers true exactly if the block starts on a page boundary, has at least a
      page, all its pages are mapped and every byte, not only every page start, is in place. */
  method IsPhysContinuous(pm: PageMap, ps: nat, base: nat, size: nat) returns (r: Outcome)
    requires ps > 0
    ensures r == Answer(true) <==>
            base % ps == 0 && size >= ps && Contiguous(pm, ps, base, size) && AllMapped(pm, ps, base, size)
    ensures r == Answer(false) ==> !Contiguous(pm, ps, base, size)
    ensures r == Abort <==> base % ps != 0 || size < ps || exists k: nat :: StuckAt(pm, ps, base, size, k)
  {
    if base % ps != 0 || size < ps { return Abort; }
    if pm(base / ps) == 0 {
      assert StuckAt(pm, ps, base, size, 0);
      return Abort;
    }
    var physBase := VirtToPhys(pm, ps, base);
    var i := base;
    ghost var k: nat := 0;
    while i < base + size
      invariant i == base + k * ps
      invariant forall m: nat | m < k :: Mapped(pm, ps, base, m) && PageInPlace(pm, ps, base, m)
      decreases base + size - i
    {
      if pm(i / ps) == 0 {
        assert StuckAt(pm, ps, base, size, k);
        return Abort;
      }
      var phys := VirtToPhys(pm, ps, i);
      if (physBase + (i - base)) % WORD != phys {
        assert !ByteInPlace(pm, ps, base, k * ps);
        NotStuck(pm, ps, base, size, k);
        return Answer(false);
      }
      i, k := i + ps, k + 1;
    }
    PagesGiveContiguity(pm, ps, base, size, k);
    BlockPages(pm, ps, base, size, k);
    return Answer(true);
  }

  /** A mapped page that is out of place ends the search before any unmapped page behind it. */
  lemma NotStuck(pm: PageMap, ps: nat, base: nat, size: nat, k: nat)
    requires ps > 0 && Mapped(pm, ps, base, k) && !PageInPlace(pm, ps, base, k)
    requires forall m: nat | m < k :: Mapped(pm, ps, base, m)
    ensures forall j: nat :: !StuckAt(pm, ps, base, size, j)
  {
  }

  lemma FewerPages(k: nat, pages: nat, ps: nat)
    requires k * ps < pages * ps
    ensures k < pages
  {
    assert k >= pages ==> k * ps >= pages * ps;
  }

  lemma BlockPages(pm: PageMap, ps: nat, base: nat, size: nat, pages: nat)
    requires ps > 0 && size <= pages * ps
    requires forall m: nat | m < pages :: Mapped(pm, ps, base, m)
    ensures AllMapped(pm, ps, base, size)
    ensures forall j: nat :: !StuckAt(pm, ps, base, size, j)
  {
    forall k: nat | k * ps < size ensures k < pages { FewerPages(k, pages, ps); }
  }

  datatype Block = Block(ptr: nat, size: nat) | Died

  /** The allocator's allocate, given the address at which mmap placed the rounded block. A block is
      returned only if it is physically contiguous, and its size is the rounded one. */
  method Allocate(pm: PageMap, ps: nat, size: nat, mapped: nat) returns (b: Block)
    requires ps > 0
    ensures b.Block? <==> mapped % ps == 0 && RoundUp(size) >= ps && Contiguous(pm, ps, mapped, RoundUp(size))
                          && AllMapped(pm, ps, mapped, RoundUp(size))
    ensures b.Block? ==> b.ptr == mapped && b.size == RoundUp(size)
    ensures b.Block? && size <= WORD - HUGE_PAGE ==> LeastMultiple(size, b.size)
  {
    var rounded := size;
    if size % HUGE_PAGE != 0 { rounded := ((size / HUGE_PAGE + 1) * HUGE_PAGE) % WORD; }
    var answer := IsPhysContinuous(pm, ps, mapped, rounded);
    if answer == Answer(true) {
      if size <= WORD - HUGE_PAGE { RoundUpIsLeastMultiple(size); }
      return Block(mapped, rounded);
    }
    return Died;
  }
}
