/** UCOSIII/uC-LIB/lib_mem.c: the arithmetic of memory segments. A segment hands out aligned
    blocks by moving a cursor; a closed form predicts how far a run of blocks moves it. */
module SegmentArithmetic {
  import opened WordArithmetic

  /** The offset from n to the next multiple of align. */
  function Pad(n: nat, align: nat): (p: nat)
    requires align > 0
    ensures p < align && (n + p) % align == 0
  {
    if n % align != 0 then
      PadAligns(n, align);
      align - n % align
    else 0
  }

  lemma PadAligns(n: nat, align: nat)
    requires align > 0
    ensures (n + (align - n % align)) % align == 0
  {
    assert n + (align - n % align) == (n / align + 1) * align;
    MultipleMod(n / align + 1, align);
  }

  /** Mem_SegCalcTotSize, wrapping as the source does; argChk is LIB_MEM_CFG_ARG_CHK_EXT_EN. */
  function SegCalcTotSize(argChk: bool, memAddr: Word, blkNbr: Word, blkSize: Word, blkAlign: Word): Word
    requires blkAlign > 0
  {
    var memAlignOffset := Pad(memAddr, blkAlign);
    var blkAlignOffset := Pad(blkSize, blkAlign);
    var sizeTot := WrappedTot(memAlignOffset, blkAlignOffset, blkNbr, blkSize);
    if argChk && CalcOverflows(memAlignOffset, blkAlignOffset, blkNbr, blkSize, sizeTot) then 0 else sizeTot
  }

  /** The sum in its 32-bit arithmetic. */
  function WrappedTot(memAlignOffset: Word, blkAlignOffset: Word, blkNbr: Word, blkSize: Word): Word {
    Wrap(memAlignOffset + Wrap(blkSize + blkAlignOffset) * Wrap(blkNbr - 1) + blkSize)
  }

  /** The overflow tests that the checked build makes after the calculation. */
  predicate CalcOverflows(memAlignOffset: Word, blkAlignOffset: Word, blkNbr: Word, blkSize: Word, sizeTot: Word) {
    var blkSizeMemAligned := Wrap(memAlignOffset + blkSize);
    || blkSizeMemAligned < memAlignOffset
    || blkSizeMemAligned < blkSize
    || (blkNbr > 1 &&
        var blkSizeAligned := Wrap(blkSize + blkAlignOffset);
        var blkSizeAlignedNbr := Wrap(blkSizeAligned * (blkNbr - 1));
        var blkSizeTot := Wrap(blkSizeAlignedNbr + blkSize);
        || blkSizeAligned < blkAlignOffset || blkSizeAligned < blkSize
        || blkSizeAlignedNbr < blkSizeAligned || blkSizeAlignedNbr < blkAlignOffset || blkSizeAlignedNbr < blkSize
        || blkSizeTot < blkSizeAlignedNbr || blkSizeTot < blkSize
        || sizeTot < blkSizeMemAligned || sizeTot < blkSizeAlignedNbr || sizeTot < blkSizeTot)
  }

  /** The distance between the starts of successive blocks. */
  function Stride(blkSize: nat, blkAlign: nat): nat
    requires blkAlign > 0
  {
    blkSize + Pad(blkSize, blkAlign)
  }

  /** The size that Mem_SegCalcTotSize documents, on unbounded integers. */
  function TotSize(memAddr: nat, blkNbr: nat, blkSize: nat, blkAlign: nat): nat
    requires blkAlign > 0 && blkNbr > 0
  {
    Pad(memAddr, blkAlign) + Stride(blkSize, blkAlign) * (blkNbr - 1) + blkSize
  }

  /** The three wrapping sums of Mem_SegAlloc. */
  lemma AllocWraps(next: Word, pad: Word, size: Word)
    ensures Wrap(pad + size) == if pad + size < WORD then pad + size else pad + size - WORD
    ensures var t := Wrap(pad + size); Wrap(next + t) == if next + t < WORD then next + t else next + t - WORD
    ensures Wrap(next + pad) == if next + pad < WORD then next + pad else next + pad - WORD
  {
    WrapOnce(pad + size);
    WrapOnce(next + Wrap(pad + size));
    WrapOnce(next + pad);
  }

  lemma NoOverflow(a: Word, offset: Word, n: Word, size: Word, sizeTot: Word)
    requires n > 0 && sizeTot == a + (size + offset) * (n - 1) + size
    requires n > 1 ==> (size + offset) * (n - 1) >= size + offset
    ensures !CalcOverflows(a, offset, n, size, sizeTot)
  {
    var product := (size + offset) * (n - 1);
    WrapSmall(a + size);
    if n > 1 {
      WrapSmall(size + offset);
      WrapSmall(product);
      WrapSmall(product + size);
    }
  }

  lemma SizeTotExact(a: Word, offset: Word, n: Word, size: Word, total: nat)
    requires n > 0 && total == a + (size + offset) * (n - 1) + size < WORD
    ensures WrappedTot(a, offset, n, size) == total
    ensures !CalcOverflows(a, offset, n, size, total)
  {
    ProductBounds(size + offset, n - 1);
    NoOverflow(a, offset, n, size, total);
    WrappedTotIs(a, offset, n, size, total);
    WrapSmall(total);
  }

  lemma WrappedTotIs(a: Word, offset: Word, n: Word, size: Word, total: nat)
    requires n > 0 && total == a + (size + offset) * (n - 1) + size
    ensures WrappedTot(a, offset, n, size) == Wrap(total)
  {
    WrapSmall(n - 1);
    WrapSum(a + size, size + offset, n - 1);
  }

  /** Either build computes the documented size exactly when that size fits in 32 bits, and the
      checked build never rejects such a request. */
  lemma CalcIsTotSize(argChk: bool, memAddr: Word, blkNbr: Word, blkSize: Word, blkAlign: Word)
    requires blkAlign > 0 && blkNbr > 0
    ensures SegCalcTotSize(argChk, memAddr, blkNbr, blkSize, blkAlign) == TotSize(memAddr, blkNbr, blkSize, blkAlign)
            <==> TotSize(memAddr, blkNbr, blkSize, blkAlign) < WORD
  {
    var t := TotSize(memAddr, blkNbr, blkSize, blkAlign);
    if t < WORD {
      SizeTotExact(Pad(memAddr, blkAlign), Pad(blkSize, blkAlign), blkNbr, blkSize, t);
    }
  }

  lemma ProductBounds(x: nat, n: nat)
    ensures n > 0 ==> x * n >= x
    ensures x * n >= 0
  {
  }

  /** The requests of more than 32 bits that slip through the overflow tests: the stride fits, its
      product with the block count wraps to no less than the stride, and nothing else overflows. */
  predicate Unnoticed(memAddr: nat, blkNbr: nat, blkSize: nat, blkAlign: nat)
    requires blkAlign > 0 && blkNbr > 0
  {
    var stride := Stride(blkSize, blkAlign);
    var product := Wrap(stride * (blkNbr - 1));
    && blkNbr > 1 && stride * (blkNbr - 1) >= WORD
    && stride < WORD && stride <= product && Pad(memAddr, blkAlign) + product + blkSize < WORD
  }

  /** The same for a stride, its product and the wrapped product. */
  predicate Slips(padding: nat, stride: nat, total: nat, p: Word, size: nat) {
    total >= WORD && stride < WORD && stride <= p && padding + p + size < WORD
  }

  lemma UnnoticedWith(memAddr: nat, n: nat, size: nat, align: nat, stride: nat, total: nat, p: Word)
    requires align > 0 && n > 0 && stride == Stride(size, align) && total == stride * (n - 1) && p == Wrap(total)
    ensures Unnoticed(memAddr, n, size, align) <==> Slips(Pad(memAddr, align), stride, total, p, size)
  {
  }

  /** For blocks that are as large as they are aligned. */
  lemma UnnoticedUnits(memAddr: nat, n: nat, unit: nat, total: nat, p: Word)
    requires unit > 0 && n > 0 && total == unit * (n - 1) && p == Wrap(total)
    ensures Unnoticed(memAddr, n, unit, unit) <==> Slips(Pad(memAddr, unit), unit, total, p, unit)
  {
    ModUnique(unit, unit, 1, 0);
    UnnoticedWith(memAddr, n, unit, unit, unit, total, p);
  }

  lemma OneBlkOverflows(a: Word, offset: Word, size: Word, sizeTot: Word)
    requires a + size >= WORD
    ensures CalcOverflows(a, offset, 1, size, sizeTot)
  {
    WrapOnce(a + size);
  }

  lemma StrideOverflows(a: Word, offset: Word, n: Word, size: Word, sizeTot: Word)
    requires n > 1 && size + offset >= WORD
    ensures CalcOverflows(a, offset, n, size, sizeTot)
  {
    WrapOnce(size + offset);
  }

  /** The tests when only the product may wrap. */
  lemma ProductOverflows(a: Word, offset: Word, n: Word, size: Word, p: Word, sizeTot: Word)
    requires n > 1 && size > 0 && size + offset < WORD && p == Wrap((size + offset) * (n - 1))
    requires sizeTot == Wrap(a + p + size)
    ensures CalcOverflows(a, offset, n, size, sizeTot) <==> !(size + offset <= p && a + p + size < WORD)
  {
    WrapSmall(size + offset);
    WrapOnce(a + size);
    WrapOnce(p + size);
    if p + size < WORD { WrapOnce(a + p + size); }
  }

  lemma ProductWraps(a: Word, product: nat, size: Word)
    ensures Wrap(a + Wrap(product) + size) == Wrap(a + product + size)
  {
    WrapSum(a + size, product, 1);
  }

  /** The same for any request whose size, of which product is the part for all blocks but the
      last, does not fit in 32 bits. */
  lemma OversizedOverflows(a: Word, offset: Word, n: Word, size: Word, product: nat, p: Word, total: nat)
    requires n > 0 && size > 0 && product == (size + offset) * (n - 1) && p == Wrap(product)
    requires total == a + product + size >= WORD
    ensures CalcOverflows(a, offset, n, size, Wrap(total)) <==>
            !(n > 1 && product >= WORD && size + offset < WORD && size + offset <= p && a + p + size < WORD)
  {
    if n == 1 {
      OneBlkOverflows(a, offset, size, Wrap(total));
    } else if size + offset >= WORD {
      StrideOverflows(a, offset, n, size, Wrap(total));
    } else {
      ProductWraps(a, product, size);
      ProductOverflows(a, offset, n, size, p, Wrap(total));
      if product < WORD { WrapSmall(product); }
    }
  }

  /** What the tests find in a request that does not fit in 32 bits. */
  lemma TestsMiss(memAddr: Word, n: Word, size: Word, align: Word)
    requires align > 0 && n > 0 && size > 0 && TotSize(memAddr, n, size, align) >= WORD
    ensures CalcOverflows(Pad(memAddr, align), Pad(size, align), n, size, Wrap(TotSize(memAddr, n, size, align)))
            <==> !Unnoticed(memAddr, n, size, align)
  {
    var product := Stride(size, align) * (n - 1);
    ProductBounds(Stride(size, align), n - 1);
    OversizedOverflows(Pad(memAddr, align), Pad(size, align), n, size, product, Wrap(product),
                       TotSize(memAddr, n, size, align));
  }

  lemma CalcWraps(argChk: bool, memAddr: Word, blkNbr: Word, blkSize: Word, blkAlign: Word)
    requires blkAlign > 0 && blkNbr > 0
    ensures var t := Wrap(TotSize(memAddr, blkNbr, blkSize, blkAlign));
            SegCalcTotSize(argChk, memAddr, blkNbr, blkSize, blkAlign) ==
            if argChk && CalcOverflows(Pad(memAddr, blkAlign), Pad(blkSize, blkAlign), blkNbr, blkSize, t) then 0 else t
  {
    WrappedTotIs(Pad(memAddr, blkAlign), Pad(blkSize, blkAlign), blkNbr, blkSize, TotSize(memAddr, blkNbr, blkSize, blkAlign));
  }

  lemma UnnoticedSize(memAddr: Word, blkNbr: Word, blkSize: Word, blkAlign: Word)
    requires blkAlign > 0 && blkNbr > 0 && blkSize > 0 && Unnoticed(memAddr, blkNbr, blkSize, blkAlign)
    ensures Wrap(TotSize(memAddr, blkNbr, blkSize, blkAlign)) ==
            Pad(memAddr, blkAlign) + Wrap(Stride(blkSize, blkAlign) * (blkNbr - 1)) + blkSize > 0
  {
    var a, x := Pad(memAddr, blkAlign), Stride(blkSize, blkAlign);
    ProductWraps(a, x * (blkNbr - 1), blkSize);
    WrapSmall(a + Wrap(x * (blkNbr - 1)) + blkSize);
  }

  lemma FittingSize(memAddr: Word, blkNbr: Word, blkSize: Word, blkAlign: Word)
    requires blkAlign > 0 && blkNbr > 0 && blkSize > 0 && TotSize(memAddr, blkNbr, blkSize, blkAlign) < WORD
    ensures Wrap(TotSize(memAddr, blkNbr, blkSize, blkAlign)) == TotSize(memAddr, blkNbr, blkSize, blkAlign) > 0
  {
    ProductBounds(Stride(blkSize, blkAlign), blkNbr - 1);
    WrapSmall(TotSize(memAddr, blkNbr, blkSize, blkAlign));
  }

  /** The requests that the checked build must reject and does. */
  predicate Rejected(memAddr: nat, blkNbr: nat, blkSize: nat, blkAlign: nat)
    requires blkAlign > 0 && blkNbr > 0
  {
    TotSize(memAddr, blkNbr, blkSize, blkAlign) >= WORD && !Unnoticed(memAddr, blkNbr, blkSize, blkAlign)
  }

  /** What either build returns for every request. The checked build rejects a request that does
      not fit in 32 bits if and only if it is not one of the unnoticed ones; everything else yields
      the documented size modulo 2^32. */
  lemma CalcDecides(argChk: bool, memAddr: Word, blkNbr: Word, blkSize: Word, blkAlign: Word)
    requires blkAlign > 0 && blkNbr > 0 && blkSize > 0
    ensures SegCalcTotSize(argChk, memAddr, blkNbr, blkSize, blkAlign) ==
            if argChk && Rejected(memAddr, blkNbr, blkSize, blkAlign) then 0
            else Wrap(TotSize(memAddr, blkNbr, blkSize, blkAlign))
    ensures argChk ==>
              (SegCalcTotSize(argChk, memAddr, blkNbr, blkSize, blkAlign) == 0 <==>
               Rejected(memAddr, blkNbr, blkSize, blkAlign))
  {
    if TotSize(memAddr, blkNbr, blkSize, blkAlign) < WORD {
      FittingSize(memAddr, blkNbr, blkSize, blkAlign);
      CalcIsTotSize(argChk, memAddr, blkNbr, blkSize, blkAlign);
    } else {
      CalcWraps(argChk, memAddr, blkNbr, blkSize, blkAlign);
      TestsMiss(memAddr, blkNbr, blkSize, blkAlign);
      if Unnoticed(memAddr, blkNbr, blkSize, blkAlign) { UnnoticedSize(memAddr, blkNbr, blkSize, blkAlign); }
    }
  }

  /** Such a request exists: five blocks of 1.5 GiB and an octet. */
  lemma OverflowMissed()
    ensures Unnoticed(0x1000, 5, 0x6000_0001, 1)
    ensures SegCalcTotSize(true, 0x1000, 5, 0x6000_0001, 1) == 0xE000_0005
    ensures TotSize(0x1000, 5, 0x6000_0001, 1) == 0x1_E000_0005
  {
    PadToOctet(0x1000);
    PadToOctet(0x6000_0001);
    MissedAt(0x1000, 5, 0x6000_0001, 1);
  }

  lemma PadToOctet(n: nat)
    ensures Pad(n, 1) == 0
  {
  }

  lemma MissedAt(memAddr: Word, n: Word, size: Word, align: Word)
    requires align > 0 && Pad(memAddr, align) == 0 && Pad(size, align) == 0 && size < 0x8000_0000 && n > 1
    requires WORD + size <= size * (n - 1) && size * n < 2 * WORD
    ensures Unnoticed(memAddr, n, size, align)
    ensures TotSize(memAddr, n, size, align) == size * n
    ensures SegCalcTotSize(true, memAddr, n, size, align) == size * n - WORD
  {
    assert size * n == size * (n - 1) + size;
    WrapOnce(size * (n - 1));
    WrapOnce(size * n);
    CalcDecides(true, memAddr, n, size, align);
  }

  // ---------------------------------------------------------------- the allocation cursor

  /** SegAddrNextAvail and SegSizeRem. */
  datatype Cursor = Cursor(next: Word, rem: Word)

  /** A block address, or 0 for the null pointer, and the cursor afterwards. */
  datatype Alloc = Alloc(cursor: Cursor, blk: Word)

  /** Mem_SegAlloc. */
  function SegAlloc(argChk: bool, c: Cursor, size: Word, align: Word): Alloc
    requires align > 0
  {
    var alignOffset := Pad(c.next, align);
    var sizeTot := Wrap(alignOffset + size);
    var addrNext := Wrap(c.next + sizeTot);
    if sizeTot > c.rem then Alloc(c, 0)
    else if argChk && (sizeTot < alignOffset || sizeTot < size) then Alloc(c, 0)
    else if argChk && addrNext < c.next then Alloc(c, 0)
    else Alloc(Cursor(addrNext, c.rem - sizeTot), Wrap(c.next + alignOffset))
  }

  /** The cursor stands in a segment that ends before end; like every C object the segment
      leaves the address after its last octet representable. */
  predicate InSegment(c: Cursor, end: nat) { 0 < c.next && c.next + c.rem == end < WORD }

  /** The sum of padding and size fits, as the unchecked build takes for granted. */
  predicate Sane(argChk: bool, c: Cursor, size: Word, align: Word)
    requires align > 0
  {
    argChk || Pad(c.next, align) + size < WORD
  }

  /** Padding and size fit what remains. */
  predicate Fits(c: Cursor, size: nat, align: nat)
    requires align > 0
  {
    Pad(c.next, align) + size <= c.rem
  }

  /** The cursor behind a block that fits. */
  function After(c: Cursor, size: Word, align: Word): Cursor
    requires align > 0 && Fits(c, size, align) && c.next + c.rem < WORD
  {
    Cursor(c.next + Pad(c.next, align) + size, c.rem - Pad(c.next, align) - size)
  }

  /** An allocation succeeds exactly when padding and size fit what remains; it then returns the
      first aligned address and moves the cursor past the block, and otherwise moves nothing. */
  lemma SegAllocSpec(argChk: bool, c: Cursor, end: nat, size: Word, align: Word)
    requires align > 0 && InSegment(c, end) && Sane(argChk, c, size, align)
    ensures SegAlloc(argChk, c, size, align) ==
            if Fits(c, size, align) then Alloc(After(c, size, align), c.next + Pad(c.next, align)) else Alloc(c, 0)
    ensures InSegment(SegAlloc(argChk, c, size, align).cursor, end)
    ensures Fits(c, size, align) ==> SegAlloc(argChk, c, size, align).blk % align == 0
  {
    AllocWraps(c.next, Pad(c.next, align), size);
  }

  /** Without the checks a request whose padded size wraps can succeed; its block then lies in
      the segment exactly when nothing wrapped. */
  lemma UncheckedAllocInside(c: Cursor, end: nat, size: Word, align: Word)
    requires align > 0 && InSegment(c, end) && SegAlloc(false, c, size, align).blk != 0
    ensures var blk := SegAlloc(false, c, size, align).blk;
            blk >= c.next && blk + size <= end <==> Pad(c.next, align) + size < WORD
  {
    AllocWraps(c.next, Pad(c.next, align), size);
  }

  lemma UncheckedAllocEscapes()
    ensures SegAlloc(false, Cursor(0x1001, 0x10), 0xFFFF_FFF8, 0x10) == Alloc(Cursor(0x1008, 0x09), 0x1010)
  {
    assert Pad(0x1001, 0x10) == 0xF;
    AllocWraps(0x1001, 0xF, 0xFFFF_FFF8);
  }

  /** At the top of the address space the checked build refuses a block that would fit. */
  lemma TopOfMemory(c: Cursor, size: Word, align: Word)
    requires align > 0 && c.next + c.rem == WORD && size > 0 && Pad(c.next, align) + size == c.rem
    ensures SegAlloc(true, c, size, align).blk == 0
    ensures SegAlloc(false, c, size, align).blk == c.next + Pad(c.next, align)
  {
    AllocWraps(c.next, Pad(c.next, align), size);
  }

  /** Successive allocations, as in the loop of Mem_PoolCreate, up to the first failure. */
  datatype Allocs = Allocs(cursor: Cursor, blks: seq<Word>)

  function SegAllocs(argChk: bool, c: Cursor, n: nat, size: Word, align: Word): (r: Allocs)
    requires align > 0
    ensures |r.blks| <= n
  {
    if n == 0 then Allocs(c, [])
    else
      var m := SegAllocs(argChk, c, n - 1, size, align);
      if |m.blks| < n - 1 then m
      else
        var a := SegAlloc(argChk, m.cursor, size, align);
        Allocs(a.cursor, if a.blk == 0 then m.blks else m.blks + [a.blk])
  }

  /** Where block k of a pool that starts at start lies. */
  function BlkAddr(start: nat, size: nat, align: nat, k: nat): nat
    requires align > 0
  {
    start + Pad(start, align) + Stride(size, align) * k
  }

  lemma PadUnique(n: nat, align: nat, p: nat)
    requires p < align && (n + p) % align == 0
    ensures Pad(n, align) == p
  {
    var a, b := (n + p) / align, (n + Pad(n, align)) / align;
    assert n + p == a * align && n + Pad(n, align) == b * align;
    assert p - Pad(n, align) == (a - b) * align;
    ModUnique(p, align, a - b, Pad(n, align));
    ModUnique(p, align, 0, p);
  }

  /** The first aligned address from start + n on is the one from start on exactly when n stays
      within the padding, and a later one otherwise. */
  lemma FirstLater(start: nat, n: nat, align: nat)
    requires align > 0
    ensures if n <= Pad(start, align) then n + Pad(start + n, align) == Pad(start, align)
            else Pad(start, align) < n + Pad(start + n, align)
  {
    if n <= Pad(start, align) { PadUnique(start + n, align, Pad(start, align) - n); }
  }

  lemma PadOfAligned(m: nat, size: nat, align: nat)
    requires align > 0 && m % align == 0
    ensures Pad(m + size, align) == Pad(size, align)
  {
    var q := m / align;
    assert m == q * align;
    var r := size % align;
    assert m + size == (q + size / align) * align + r;
    ModUnique(m + size, align, q + size / align, r);
  }

  lemma SumOfMultiples(a: nat, b: nat, k: nat, align: nat)
    requires align > 0 && a % align == 0 && b % align == 0
    ensures (a + b * k) % align == 0
  {
    var p, q := a / align, b / align;
    assert a == p * align && b == q * align;
    assert a + b * k == (p + q * k) * align;
    MultipleMod(p + q * k, align);
  }

  lemma BlkAligned(start: nat, size: nat, align: nat, k: nat)
    requires align > 0
    ensures BlkAddr(start, size, align, k) % align == 0
  {
    SumOfMultiples(start + Pad(start, align), Stride(size, align), k, align);
  }

  /** One more block costs one more stride. */
  lemma TotSizeStep(start: nat, n: nat, size: nat, align: nat)
    requires align > 0 && n > 0
    ensures BlkAddr(start, size, align, n) == start + TotSize(start, n, size, align) + Pad(size, align)
    ensures Pad(start + TotSize(start, n, size, align), align) == Pad(size, align)
    ensures TotSize(start, n + 1, size, align) == TotSize(start, n, size, align) + Pad(size, align) + size
  {
    var s := Stride(size, align);
    assert s * n == s * (n - 1) + s;
    BlkAligned(start, size, align, n - 1);
    PadOfAligned(BlkAddr(start, size, align, n - 1), size, align);
  }

  /** Block k of the run lies where the closed form puts it. */
  ghost predicate FollowForm(blks: seq<Word>, start: nat, size: nat, align: nat)
    requires align > 0
  {
    forall k :: 0 <= k < |blks| ==> blks[k] == BlkAddr(start, size, align, k)
  }

  lemma FormSnoc(blks: seq<Word>, blk: Word, start: nat, size: nat, align: nat)
    requires align > 0 && FollowForm(blks, start, size, align) && blk == BlkAddr(start, size, align, |blks|)
    ensures FollowForm(blks + [blk], start, size, align)
  {
  }

  /** How far the first aligned address moves up when the search for it starts n octets later. */
  function Displacement(start: nat, n: nat, align: nat): (d: nat)
    requires align > 0
    ensures d == 0 <==> n <= Pad(start, align)
  {
    FirstLater(start, n, align);
    n + Pad(start + n, align) - Pad(start, align)
  }

  /** Blocks from start + n on are those from start on exactly when n stays within the padding. */
  lemma FormLater(blks: seq<Word>, start: nat, n: nat, size: nat, align: nat)
    requires align > 0 && blks != [] && FollowForm(blks, start + n, size, align)
    ensures FollowForm(blks, start, size, align) <==> n <= Pad(start, align)
  {
    FirstLater(start, n, align);
    assert blks[0] == BlkAddr(start + n, size, align, 0);
    if n <= Pad(start, align) {
      forall k | 0 <= k < |blks| ensures blks[k] == BlkAddr(start, size, align, k) {
        assert blks[k] == BlkAddr(start + n, size, align, k);
      }
    } else {
      assert Stride(size, align) * 0 == 0;
      assert blks[0] != BlkAddr(start, size, align, 0);
    }
  }

  /** The closed form predicts the loop: n blocks can be allocated exactly when TotSize fits what
      remains; they are then the blocks of BlkAddr and consume exactly TotSize. In the checked
      build this holds for every request, however large its true size. */
  lemma {:induction false} ClosedFormIsLoop(argChk: bool, c: Cursor, end: nat, n: nat, size: Word, align: Word)
    requires align > 0 && n > 0 && InSegment(c, end) && (argChk || TotSize(c.next, n, size, align) < WORD)
    ensures var r, t := SegAllocs(argChk, c, n, size, align), TotSize(c.next, n, size, align);
            && (|r.blks| == n <==> t <= c.rem)
            && (t <= c.rem ==> r.cursor == Cursor(c.next + t, c.rem - t) && FollowForm(r.blks, c.next, size, align))
    decreases n
  {
    var t := TotSize(c.next, n, size, align);
    if n == 1 {
      assert SegAllocs(argChk, c, 0, size, align) == Allocs(c, []);
      SegAllocSpec(argChk, c, end, size, align);
      assert Stride(size, align) * 0 == 0;
    } else {
      TotSizeStep(c.next, n - 1, size, align);
      ClosedFormIsLoop(argChk, c, end, n - 1, size, align);
      OneMore(argChk, c, end, n, size, align, TotSize(c.next, n - 1, size, align), t);
    }
  }

  /** One more turn of the loop, when the blocks before it take u and those up to it t. */
  lemma OneMore(argChk: bool, c: Cursor, end: nat, n: nat, size: Word, align: Word, u: nat, t: nat)
    requires align > 0 && n > 1 && InSegment(c, end) && (argChk || t < WORD)
    requires t == u + Pad(size, align) + size && Pad(c.next + u, align) == Pad(size, align)
    requires BlkAddr(c.next, size, align, n - 1) == c.next + u + Pad(size, align)
    requires var m := SegAllocs(argChk, c, n - 1, size, align);
             && (|m.blks| == n - 1 <==> u <= c.rem)
             && (u <= c.rem ==> m.cursor == Cursor(c.next + u, c.rem - u) && FollowForm(m.blks, c.next, size, align))
    ensures var r := SegAllocs(argChk, c, n, size, align);
            && (|r.blks| == n <==> t <= c.rem)
            && (t <= c.rem ==> r.cursor == Cursor(c.next + t, c.rem - t) && FollowForm(r.blks, c.next, size, align))
  {
    if u <= c.rem {
      SegAllocSpec(argChk, Cursor(c.next + u, c.rem - u), end, size, align);
      if t <= c.rem {
        FormSnoc(SegAllocs(argChk, c, n - 1, size, align).blks, c.next + u + Pad(size, align), c.next, size, align);
      }
    }
  }

  /** A run gets as far as m allocations exactly when a run of m completes. */
  lemma {:induction false} RunPrefix(argChk: bool, c: Cursor, m: nat, n: nat, size: Word, align: Word)
    requires align > 0 && m <= n
    ensures |SegAllocs(argChk, c, n, size, align).blks| >= m <==> |SegAllocs(argChk, c, m, size, align).blks| == m
    decreases n
  {
    if m < n { RunPrefix(argChk, c, m, n - 1, size, align); }
  }

  /** A run that is cut short stops where the next block does not fit. */
  lemma {:induction false} StopsShort(argChk: bool, c: Cursor, end: nat, n: nat, size: Word, align: Word)
    requires align > 0 && InSegment(c, end) && |SegAllocs(argChk, c, n, size, align).blks| < n
    requires argChk || TotSize(c.next, n, size, align) < WORD
    ensures var r := SegAllocs(argChk, c, n, size, align);
            InSegment(r.cursor, end) && !Fits(r.cursor, size, align)
    decreases n
  {
    var m := SegAllocs(argChk, c, n - 1, size, align);
    if n > 1 { TotSizeStep(c.next, n - 1, size, align); }
    if |m.blks| < n - 1 {
      StopsShort(argChk, c, end, n - 1, size, align);
    } else {
      if n > 1 {
        ClosedFormIsLoop(argChk, c, end, n - 1, size, align);
      } else {
        assert m == Allocs(c, []) && Stride(size, align) * 0 == 0;
      }
      SegAllocSpec(argChk, m.cursor, end, size, align);
    }
  }

  lemma OneBlkOfMany(start: nat, m: nat, size: Word, align: Word)
    requires align > 0 && m > 0
    ensures TotSize(start, m, size, align) >= Pad(start, align) + size
  {
    ProductMonotone(Stride(size, align), 0, m - 1);
  }

  /** What is left to allocate then takes more than remains. */
  lemma RestTooLarge(argChk: bool, c: Cursor, end: nat, n: nat, size: Word, align: Word)
    requires align > 0 && InSegment(c, end) && |SegAllocs(argChk, c, n, size, align).blks| < n
    requires argChk || TotSize(c.next, n, size, align) < WORD
    ensures var r := SegAllocs(argChk, c, n, size, align);
            TotSize(r.cursor.next, n - |r.blks|, size, align) > r.cursor.rem
  {
    var r := SegAllocs(argChk, c, n, size, align);
    StopsShort(argChk, c, end, n, size, align);
    OneBlkOfMany(r.cursor.next, n - |r.blks|, size, align);
  }

  // ---------------------------------------------------------------- any run of requests

  datatype Request = Request(size: Word, align: Word)

  datatype Region = Region(addr: nat, size: nat, align: nat)

  datatype Served = Served(cursor: Cursor, regions: seq<Region>)

  /** Requests of any sizes and alignments, served in order; failures hand out nothing. */
  function Serve(argChk: bool, c: Cursor, reqs: seq<Request>): Served
    requires forall r :: r in reqs ==> r.align > 0
  {
    if reqs == [] then Served(c, [])
    else
      var n := |reqs| - 1;
      var s, q := Serve(argChk, c, reqs[..n]), reqs[n];
      var a := SegAlloc(argChk, s.cursor, q.size, q.align);
      Served(a.cursor, if a.blk == 0 then s.regions else s.regions + [Region(a.blk, q.size, q.align)])
  }

  predicate Apart(r: Region, s: Region) { r.addr + r.size <= s.addr || s.addr + s.size <= r.addr }

  predicate Covers(r: Region, octet: nat) { r.addr <= octet < r.addr + r.size }

  /** Regions are apart when they have no octet in common. */
  lemma ApartIff(r: Region, s: Region)
    requires r.size > 0 && s.size > 0
    ensures Apart(r, s) <==> forall octet: nat :: !(Covers(r, octet) && Covers(s, octet))
  {
    var later := if r.addr <= s.addr then s.addr else r.addr;
    if !Apart(r, s) { assert Covers(r, later) && Covers(s, later); }
  }

  ghost predicate SafeRegions(regions: seq<Region>, lo: nat, hi: nat) {
    && (forall r :: r in regions ==> r.align > 0 && r.addr % r.align == 0 && lo <= r.addr && r.addr + r.size <= hi)
    && (forall i, j :: 0 <= i < j < |regions| ==> Apart(regions[i], regions[j]))
  }

  /** In the checked build every run of requests is served safely: whatever was handed out is
      aligned as asked, lies between the start and the final cursor, and overlaps nothing else. */
  lemma {:induction false} RunIsSafe(c: Cursor, end: nat, reqs: seq<Request>)
    requires InSegment(c, end) && forall r :: r in reqs ==> r.align > 0
    ensures var s := Serve(true, c, reqs);
            InSegment(s.cursor, end) && c.next <= s.cursor.next && SafeRegions(s.regions, c.next, s.cursor.next)
  {
    if reqs != [] {
      var n := |reqs| - 1;
      RunIsSafe(c, end, reqs[..n]);
      SegAllocSpec(true, Serve(true, c, reqs[..n]).cursor, end, reqs[n].size, reqs[n].align);
    }
  }

  // ---------------------------------------------------------------- shortfall and remaining size

  /** When a request does not fit, the shortfall that Mem_HeapAlloc reports is the least
      additional space with which it would. */
  lemma ShortfallIsLeast(argChk: bool, c: Cursor, end: nat, size: Word, align: Word, extra: nat)
    requires align > 0 && InSegment(c, end) && TotSize(c.next, 1, size, align) < WORD && end + extra < WORD
    requires SegCalcTotSize(argChk, c.next, 1, size, align) > c.rem
    ensures SegAlloc(argChk, Cursor(c.next, c.rem + extra), size, align).blk != 0
            <==> extra >= SegCalcTotSize(argChk, c.next, 1, size, align) - c.rem
  {
    CalcIsTotSize(argChk, c.next, 1, size, align);
    assert Stride(size, align) * 0 == 0;
    SegAllocSpec(argChk, Cursor(c.next, c.rem + extra), end + extra, size, align);
  }

  /** The result of Mem_SegGetSizeRem for a cursor. */
  function SizeRem(c: Cursor, align: Word): Word
    requires align > 0
  {
    if align > 1 then Wrap(c.rem - Pad(c.next, align)) else c.rem
  }

  /** Mem_SegGetSizeRem is the largest size that can be allocated exactly when the padding fits
      what remains; otherwise the subtraction wraps. */
  lemma SizeRemIsLargest(c: Cursor, end: nat, align: Word)
    requires align > 0 && InSegment(c, end)
    ensures (forall size: Word {:trigger SegAlloc(true, c, size, align)} ::
               SegAlloc(true, c, size, align).blk != 0 <==> size <= SizeRem(c, align))
            <==> Pad(c.next, align) <= c.rem
  {
    var p := Pad(c.next, align);
    forall size: Word ensures SegAlloc(true, c, size, align).blk != 0 <==> p + size <= c.rem {
      SegAllocSpec(true, c, end, size, align);
    }
    if p <= c.rem {
      WrapSmall(c.rem - p);
    } else {
      assert SegAlloc(true, c, 0, align).blk == 0;
    }
  }

  /** What Mem_SegGetSizeRem returns for every cursor: the remaining size less the padding, or more
      than 4 GiB less what is missing for the padding. */
  lemma SizeRemIs(c: Cursor, align: Word)
    requires align > 0
    ensures SizeRem(c, align) == c.rem - Pad(c.next, align) + if Pad(c.next, align) <= c.rem then 0 else WORD
  {
    var d := c.rem - Pad(c.next, align);
    if align == 1 { PadToOctet(c.next); }
    if d >= 0 { WrapSmall(d); } else { ModUnique(d, WORD, -1, d + WORD); }
  }

  lemma SizeRemWraps()
    ensures SizeRem(Cursor(0x1001, 2), 4) == 0xFFFF_FFFF
  {
    assert Pad(0x1001, 4) == 3;
    ModUnique(-1, WORD, -1, WORD - 1);
  }
}
