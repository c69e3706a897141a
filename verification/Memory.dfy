/** The packet pool: where its buffers lie, and the stack of free ones. */
module Memory {
  import opened Descriptors
  import Dma = DmaAllocator

  const U32: nat := 0x1_0000_0000

  // -- layout ------------------------------------------------------------------------------------

  /** `i * entry_size` in 32-bit arithmetic: the offset of buffer i in the pool. */
  function Offset(i: nat, entry: nat): nat { (i * entry) % U32 }

  /** The bytes that memory_allocate_mempool asks for, rounded to huge pages. */
  function PoolBytes(num: nat, entry: nat): nat { Dma.RoundUp((num * entry) % U32) }

  /** Buffers do not overlap and lie inside the allocated memory. */
  ghost predicate LayoutSound(num: nat, entry: nat) {
    && (forall i: nat | i < num :: Offset(i, entry) + entry <= PoolBytes(num, entry))
    && (forall i: nat, j: nat | i < j < num ::
          Offset(i, entry) + entry <= Offset(j, entry) || Offset(j, entry) + entry <= Offset(i, entry))
  }

  lemma {:induction false} Products(i: nat, j: nat, entry: nat)
    requires i < j
    ensures i * entry + entry <= j * entry
    decreases j
  {
    assert j * entry == (j - 1) * entry + entry;
    if i < j - 1 { Products(i, j - 1, entry); }
  }

  lemma RoundUpCovers(size: nat)
    requires size < U32
    ensures size <= Dma.RoundUp(size) < size + Dma.HUGE_PAGE
  {
  }

  lemma SmallMod(x: nat)
    requires x < U32
    ensures x % U32 == x
  {
  }

  lemma LayoutWithoutWrap(num: nat, entry: nat)
    requires num * entry < U32
    ensures LayoutSound(num, entry)
  {
    forall i: nat | i < num ensures Offset(i, entry) == i * entry && i * entry + entry <= num * entry {
      Products(i, num, entry);
      SmallMod(i * entry);
    }
    SmallMod(num * entry);
    RoundUpCovers(num * entry);
    forall i: nat, j: nat | i < j < num ensures Offset(i, entry) + entry <= Offset(j, entry) {
      Products(i, j, entry);
    }
  }

  /** If the last buffer starts beyond 32 bits, some buffer starts inside the first. */
  lemma WrapOverlaps(num: nat, entry: nat)
    requires 0 < entry < U32 && num >= 1 && (num - 1) * entry >= U32
    ensures exists j: nat :: 0 < j < num && Offset(j, entry) < entry
  {
    var j := (U32 + entry - 1) / entry;
    assert j * entry <= U32 + entry - 1 < j * entry + entry;
    assert U32 <= j * entry < U32 + entry;
    if j > num - 1 { Products(num - 1, j, entry); }
    assert Offset(j, entry) == j * entry - U32;
  }

  /** The pool is laid out soundly exactly if its size in bytes fits 32 bits. */
  lemma LayoutSoundIffFits(num: nat, entry: nat)
    requires num >= 1 && 0 < entry < U32
    ensures LayoutSound(num, entry) <==> num * entry < U32
  {
    if num * entry < U32 {
      LayoutWithoutWrap(num, entry);
    } else if (num - 1) * entry >= U32 {
      WrapOverlaps(num, entry);
      var j: nat :| 0 < j < num && Offset(j, entry) < entry;
      SmallMod(0);
      assert Offset(0, entry) == 0;
      assert !LayoutSound(num, entry);
    } else {
      LastBufferSticksOut(num, entry);
    }
  }

  lemma LastBufferSticksOut(num: nat, entry: nat)
    requires num >= 1 && 0 < entry < U32 && (num - 1) * entry < U32 <= num * entry
    ensures !LayoutSound(num, entry)
  {
    var total := num * entry;
    assert total == (num - 1) * entry + entry;
    SmallMod((num - 1) * entry);
    assert total % U32 == total - U32;
    RoundUpCovers(total - U32);
    assert Offset(num - 1, entry) + entry > PoolBytes(num, entry);
  }

  // -- bus addresses -----------------------------------------------------------------------------

  /** buf_addr_phy as memory_allocate_mempool records it: the translation of the pool's first byte plus the 32-bit
      offset, in 64-bit arithmetic. */
  function RecordedAddr(phy: nat, i: nat, entry: nat): nat { (phy + Offset(i, entry)) % Dma.WORD }

  /** Byte b of buffer i is where the buffer's recorded bus address says. */
  ghost predicate Recorded(pm: Dma.PageMap, ps: nat, base: nat, entry: nat, i: nat, b: nat)
    requires ps > 0
  {
    Dma.VirtToPhys(pm, ps, base + (Offset(i, entry) + b))
      == (RecordedAddr(Dma.VirtToPhys(pm, ps, base), i, entry) + b) % Dma.WORD
  }

  ghost predicate AllRecorded(pm: Dma.PageMap, ps: nat, base: nat, num: nat, entry: nat)
    requires ps > 0
  {
    forall i: nat, b: nat | i < num && b < entry :: Recorded(pm, ps, base, entry, i, b)
  }

  /** For a byte of the pool, "recorded" is "in place". */
  lemma RecordedIsInPlace(pm: Dma.PageMap, ps: nat, base: nat, num: nat, entry: nat, i: nat, b: nat)
    requires ps > 0 && num * entry < U32 && i < num && b < entry
    ensures i * entry + b < num * entry
    ensures Recorded(pm, ps, base, entry, i, b) <==> Dma.ByteInPlace(pm, ps, base, i * entry + b)
  {
    Products(i, num, entry);
    SmallMod(i * entry);
    SameByte(pm, ps, base, entry, i, b, i * entry);
  }

  lemma SameByte(pm: Dma.PageMap, ps: nat, base: nat, entry: nat, i: nat, b: nat, start: nat)
    requires ps > 0 && Offset(i, entry) == start
    ensures Recorded(pm, ps, base, entry, i, b) <==> Dma.ByteInPlace(pm, ps, base, start + b)
  {
    WordAdd(Dma.VirtToPhys(pm, ps, base) + start, b);
  }

  lemma WordAdd(x: nat, b: nat)
    ensures (x % Dma.WORD + b) % Dma.WORD == (x + b) % Dma.WORD
  {
    Dma.ModAdd(x % Dma.WORD, x, b);
  }

  /** Every byte of the pool belongs to a buffer, so recorded addresses put it in place. */
  lemma RecordedByte(pm: Dma.PageMap, ps: nat, base: nat, num: nat, entry: nat, off: nat)
    requires ps > 0 && entry > 0 && num * entry < U32 && off < num * entry && AllRecorded(pm, ps, base, num, entry)
    ensures Dma.ByteInPlace(pm, ps, base, off)
  {
    var i, b := Dma.PageOf(off, entry, num);
    assert Recorded(pm, ps, base, entry, i, b);
    RecordedIsInPlace(pm, ps, base, num, entry, i, b);
  }

  lemma RecordedIffBytesInPlace(pm: Dma.PageMap, ps: nat, base: nat, num: nat, entry: nat)
    requires ps > 0 && entry > 0 && num * entry < U32
    ensures AllRecorded(pm, ps, base, num, entry) <==> Dma.Contiguous(pm, ps, base, num * entry)
  {
    if AllRecorded(pm, ps, base, num, entry) {
      forall off: nat | off < num * entry ensures Dma.ByteInPlace(pm, ps, base, off) {
        RecordedByte(pm, ps, base, num, entry, off);
      }
    }
    if Dma.Contiguous(pm, ps, base, num * entry) {
      forall i: nat, b: nat | i < num && b < entry ensures Recorded(pm, ps, base, entry, i, b) {
        RecordedIsInPlace(pm, ps, base, num, entry, i, b);
      }
    }
  }

  ghost predicate PagesInPlace(pm: Dma.PageMap, ps: nat, base: nat, size: nat)
    requires ps > 0
  {
    forall k: nat | k * ps < size :: Dma.PageInPlace(pm, ps, base, k)
  }

  lemma PageBelow(off: nat, ps: nat)
    requires ps > 0
    ensures off / ps * ps <= off && off == off / ps * ps + off % ps
  {
  }

  /** Bytes are in place exactly if pages are. */
  lemma BytesIffPages(pm: Dma.PageMap, ps: nat, base: nat, size: nat)
    requires ps > 0 && base % ps == 0
    ensures Dma.Contiguous(pm, ps, base, size) <==> PagesInPlace(pm, ps, base, size)
  {
    if Dma.Contiguous(pm, ps, base, size) {
      forall k: nat | k * ps < size ensures Dma.PageInPlace(pm, ps, base, k) {
        assert Dma.ByteInPlace(pm, ps, base, k * ps);
      }
    }
    if PagesInPlace(pm, ps, base, size) {
      forall off: nat | off < size ensures Dma.ByteInPlace(pm, ps, base, off) {
        PageBelow(off, ps);
        Dma.PageCoversBytes(pm, ps, base, off / ps, off % ps);
      }
    }
  }

  /** The bus addresses recorded in the headers are right for every byte of every buffer exactly if every page of
      the pool lies where contiguity with the first page puts it; only that first page is translated. */
  lemma RecordedIffPagesInPlace(pm: Dma.PageMap, ps: nat, base: nat, num: nat, entry: nat)
    requires ps > 0 && base % ps == 0 && entry > 0 && num * entry < U32
    ensures AllRecorded(pm, ps, base, num, entry) <==> PagesInPlace(pm, ps, base, num * entry)
  {
    RecordedIffBytesInPlace(pm, ps, base, num, entry);
    BytesIffPages(pm, ps, base, num * entry);
  }

  /** The kernel maps whole huge pages: inside each, translation is linear. */
  ghost predicate HugeMapped(pm: Dma.PageMap, ps: nat, base: nat, size: nat)
    requires ps > 0
  {
    forall off: nat | off < size :: LinearInHugePage(pm, ps, base, off)
  }

  ghost predicate LinearInHugePage(pm: Dma.PageMap, ps: nat, base: nat, off: nat)
    requires ps > 0
  {
    Dma.VirtToPhys(pm, ps, base + off)
      == (Dma.VirtToPhys(pm, ps, base + off / Dma.HUGE_PAGE * Dma.HUGE_PAGE) + off % Dma.HUGE_PAGE) % Dma.WORD
  }

  /** Huge pages that follow each other in virtual but not in physical memory: a gap of one behind the first. */
  function GapMap(first: nat, m: nat): Dma.PageMap {
    (p: nat) => if p < first then 1 else if p - first < m then 1 + (p - first) else 1 + (p - first) + m
  }

  lemma GapTranslation(ps: nat, base: nat, off: nat)
    requires 0 < ps && base % ps == 0 && Dma.HUGE_PAGE % ps == 0 && off < U32
    ensures Dma.VirtToPhys(GapMap(base / ps, Dma.HUGE_PAGE / ps), ps, base + off)
            == ps + off + if off < Dma.HUGE_PAGE then 0 else Dma.HUGE_PAGE
  {
    var first, m, k, r := base / ps, Dma.HUGE_PAGE / ps, off / ps, off % ps;
    PageBelow(off, ps);
    PageBelow(Dma.HUGE_PAGE, ps);
    SameSide(off, ps, m);
    GapPage(first, m, ps, k, r);
    Dma.PageStart(base, ps, k);
  }

  lemma GapPage(first: nat, m: nat, ps: nat, k: nat, r: nat)
    requires r < ps && m * ps == Dma.HUGE_PAGE && k * ps + r < U32
    ensures Dma.VirtToPhys(GapMap(first, m), ps, (first + k) * ps + r)
            == ps + (k * ps + r) + if k < m then 0 else Dma.HUGE_PAGE
  {
    Dma.TranslationOf(GapMap(first, m), ps, first + k, r);
    GapFrame(first, m, ps, k);
    FactorSmall(ps, m);
    WordSmall(ps + (k * ps + r) + if k < m then 0 else Dma.HUGE_PAGE);
  }

  lemma WordSmall(x: nat)
    requires x < Dma.WORD
    ensures x % Dma.WORD == x
  {
  }

  /** The frame of a page under the gap map, as an address. */
  lemma GapFrame(first: nat, m: nat, ps: nat, k: nat)
    requires ps > 0 && m * ps == Dma.HUGE_PAGE && k * ps < U32
    ensures Dma.Frame(GapMap(first, m)(first + k)) * ps == ps + k * ps + if k < m then 0 else Dma.HUGE_PAGE
  {
    FactorSmall(m, ps);
    FactorSmall(k, ps);
    FrameOf(1 + k);
    FrameOf(1 + k + m);
    Distribute(k, m, ps);
  }

  lemma FactorSmall(k: nat, ps: nat)
    requires ps > 0
    ensures k <= k * ps
  {
    if k > 0 { Products(0, ps, k); }
  }

  lemma FrameOf(x: nat)
    requires x < 0x2_0000_0000
    ensures Dma.Frame(x) == x
  {
  }

  /** A byte lies in the first huge page exactly if its page does. */
  lemma SameSide(off: nat, ps: nat, m: nat)
    requires ps > 0
    ensures off / ps < m <==> off < m * ps
  {
    PageBelow(off, ps);
    if off / ps < m { Products(off / ps, m, ps); } else if off / ps > m { Products(m, off / ps, ps); }
  }

  lemma Distribute(k: nat, m: nat, ps: nat)
    ensures (1 + k) * ps == ps + k * ps
    ensures (1 + k + m) * ps == ps + k * ps + m * ps
  {
  }

  lemma OneHugePage(pm: Dma.PageMap, ps: nat, base: nat, size: nat)
    requires ps > 0 && size <= Dma.HUGE_PAGE && HugeMapped(pm, ps, base, size)
    ensures Dma.Contiguous(pm, ps, base, size)
  {
    forall off: nat | off < size ensures Dma.ByteInPlace(pm, ps, base, off) {
      assert LinearInHugePage(pm, ps, base, off);
      assert off / Dma.HUGE_PAGE == 0 && off % Dma.HUGE_PAGE == off;
    }
  }

  /** Translating the first page is enough, whatever huge pages the kernel hands out, exactly for pools of one huge
      page. The shipped pools have two and four. */
  lemma FirstPageEnoughIff(ps: nat, base: nat, num: nat, entry: nat)
    requires 0 < ps && base % ps == 0 && Dma.HUGE_PAGE % ps == 0 && entry > 0 && num * entry < U32
    ensures (forall pm: Dma.PageMap | HugeMapped(pm, ps, base, num * entry) :: AllRecorded(pm, ps, base, num, entry))
            <==> num * entry <= Dma.HUGE_PAGE
  {
    if num * entry <= Dma.HUGE_PAGE {
      forall pm: Dma.PageMap | HugeMapped(pm, ps, base, num * entry) ensures AllRecorded(pm, ps, base, num, entry) {
        OneHugePage(pm, ps, base, num * entry);
        RecordedIffBytesInPlace(pm, ps, base, num, entry);
      }
    } else {
      GapRecordsWrong(ps, base, num, entry);
    }
  }

  lemma GapIsHugeMapped(ps: nat, base: nat, size: nat)
    requires 0 < ps && base % ps == 0 && Dma.HUGE_PAGE % ps == 0 && size < U32
    ensures HugeMapped(GapMap(base / ps, Dma.HUGE_PAGE / ps), ps, base, size)
  {
    forall off: nat | off < size
      ensures LinearInHugePage(GapMap(base / ps, Dma.HUGE_PAGE / ps), ps, base, off)
    {
      GapIsLinear(GapMap(base / ps, Dma.HUGE_PAGE / ps), ps, base, off);
    }
  }

  lemma GapIsLinear(pm: Dma.PageMap, ps: nat, base: nat, off: nat)
    requires 0 < ps && base % ps == 0 && Dma.HUGE_PAGE % ps == 0 && off < U32
    requires pm == GapMap(base / ps, Dma.HUGE_PAGE / ps)
    ensures LinearInHugePage(pm, ps, base, off)
  {
    var start, r := HugePageOf(off);
    GapTranslation(ps, base, off);
    GapTranslation(ps, base, start);
    WordSmall(Dma.VirtToPhys(pm, ps, base + start) + r);
  }

  /** Byte `off` is byte r of the huge page at `start`. */
  lemma HugePageOf(off: nat) returns (start: nat, r: nat)
    ensures start == off / Dma.HUGE_PAGE * Dma.HUGE_PAGE && r == off % Dma.HUGE_PAGE && off == start + r
    ensures off < Dma.HUGE_PAGE <==> start < Dma.HUGE_PAGE
  {
    start, r := off / Dma.HUGE_PAGE * Dma.HUGE_PAGE, off % Dma.HUGE_PAGE;
  }

  /** Such a page map, and the wrong address: that of the first byte of the second huge page. */
  lemma GapRecordsWrong(ps: nat, base: nat, num: nat, entry: nat)
    requires 0 < ps && base % ps == 0 && Dma.HUGE_PAGE % ps == 0 && entry > 0 && Dma.HUGE_PAGE < num * entry < U32
    ensures var pm := GapMap(base / ps, Dma.HUGE_PAGE / ps);
            HugeMapped(pm, ps, base, num * entry) && !AllRecorded(pm, ps, base, num, entry)
  {
    GapIsHugeMapped(ps, base, num * entry);
    GapTranslation(ps, base, 0);
    GapTranslation(ps, base, Dma.HUGE_PAGE);
    var pm := GapMap(base / ps, Dma.HUGE_PAGE / ps);
    assert !Dma.ByteInPlace(pm, ps, base, Dma.HUGE_PAGE);
    RecordedIffBytesInPlace(pm, ps, base, num, entry);
  }

  predicate Disjoint(a: int, alen: int, b: int, blen: int) { a + alen <= b || b + blen <= a }

  /** A DMA of len bytes at byte `off` of buffer i misses every header and every other buffer. */
  ghost predicate DmaSafe(num: nat, entry: nat, i: nat, off: nat, len: nat) {
    forall j: nat | j < num ::
      && Disjoint(i * entry + off, len, j * entry, DATA_OFFSET)
      && (j != i ==> Disjoint(i * entry + off, len, j * entry, entry))
  }

  lemma DataAreaIsSafe(num: nat, entry: nat, i: nat, len: nat)
    requires i < num && DATA_OFFSET + len <= entry
    ensures DmaSafe(num, entry, i, DATA_OFFSET, len)
  {
    forall j: nat | j < num && j != i
      ensures Disjoint(i * entry + DATA_OFFSET, len, j * entry, entry)
    {
      if i < j { Products(i, j, entry); } else { Products(j, i, entry); }
    }
  }

  /** For the two offsets in the driver: DMA is safe in every buffer exactly if the data offset is added
      and the packet fits behind it. */
  lemma DmaSafeIff(num: nat, entry: nat, off: nat, len: nat)
    requires num >= 2 && entry >= DATA_OFFSET && len >= 1 && (off == 0 || off == DATA_OFFSET)
    ensures (forall i: nat | i < num :: DmaSafe(num, entry, i, off, len))
            <==> off == DATA_OFFSET && DATA_OFFSET + len <= entry
  {
    if off == DATA_OFFSET && DATA_OFFSET + len <= entry {
      forall i: nat | i < num ensures DmaSafe(num, entry, i, off, len) { DataAreaIsSafe(num, entry, i, len); }
    } else {
      assert !Disjoint(0 * entry + off, len, (if off == 0 then 0 else 1) * entry, DATA_OFFSET);
      assert !DmaSafe(num, entry, 0, off, len);
    }
  }
}
