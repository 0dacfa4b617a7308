/** UCOSIII/uC-LIB/lib_mem.h, lib_mem.c: struct mem_pool and the functions that work on one
    such object. Each method is proved against a function of MemoryPool or SegmentArithmetic. */
module MemPoolObject {
  import opened WordArithmetic
  import opened SegmentArithmetic
  import opened MemoryPool

  function Opt(p: MemPool?): set<MemPool> { if p == null then {} else {p} }

  class MemPool {
    var typ: PoolType

    var segHeadPtr: MemPool?
    var segPrevPtr: MemPool?
    var segNextPtr: MemPool?
    var poolPrevPtr: MemPool?
    var poolNextPtr: MemPool?

    var poolAddrStart: Word
    var poolAddrEnd: Word
    var poolPtrs: array?<Word>
    var blkIx: nat
    var poolSize: Word
    var blkNbr: nat
    var blkSize: Word
    var blkAlign: Word

    var segAddr: Word
    var segAddrNextAvail: Word
    var segSizeTot: Word
    var segSizeRem: Word

    /** Mem_PoolClr. */
    constructor ()
      ensures Cleared()
    {
      typ := TypeNone;
      segHeadPtr, segPrevPtr, segNextPtr, poolPrevPtr, poolNextPtr := null, null, null, null, null;
      poolAddrStart, poolAddrEnd, poolPtrs, blkIx := 0, 0, null, 0;
      poolSize, blkNbr, blkSize, blkAlign := 0, 0, 0, 0;
      segAddr, segAddrNextAvail, segSizeTot, segSizeRem := 0, 0, 0, 0;
    }

    predicate Cleared()
      reads this
    {
      && typ == TypeNone
      && segHeadPtr == null && segPrevPtr == null && segNextPtr == null
      && poolPrevPtr == null && poolNextPtr == null
      && poolAddrStart == 0 && poolAddrEnd == 0 && poolPtrs == null && blkIx == 0
      && poolSize == 0 && blkNbr == 0 && blkSize == 0 && blkAlign == 0
      && segAddr == 0 && segAddrNextAvail == 0 && segSizeTot == 0 && segSizeRem == 0
    }

    method Clr()
      modifies this
      ensures Cleared()
    {
      ClrLinks();
      ClrBlks();
      segAddr := 0;
      segAddrNextAvail := 0;
      segSizeTot := 0;
      segSizeRem := 0;
    }

    method ClrLinks()
      modifies this`typ, this`segHeadPtr, this`segPrevPtr, this`segNextPtr, this`poolPrevPtr, this`poolNextPtr
      ensures typ == TypeNone && segHeadPtr == null && segPrevPtr == null && segNextPtr == null
      ensures poolPrevPtr == null && poolNextPtr == null
    {
      typ := TypeNone;
      segHeadPtr := null;
      segPrevPtr := null;
      segNextPtr := null;
      poolPrevPtr := null;
      poolNextPtr := null;
    }

    method ClrBlks()
      modifies this`poolAddrStart, this`poolAddrEnd, this`poolPtrs, this`poolSize
      modifies this`blkAlign, this`blkSize, this`blkNbr, this`blkIx
      ensures poolAddrStart == 0 && poolAddrEnd == 0 && poolPtrs == null && poolSize == 0
      ensures blkAlign == 0 && blkSize == 0 && blkNbr == 0 && blkIx == 0
    {
      poolAddrStart := 0;
      poolAddrEnd := 0;
      poolPtrs := null;
      poolSize := 0;
      blkAlign := 0;
      blkSize := 0;
      blkNbr := 0;
      blkIx := 0;
    }

    /** What Mem_Init does to Mem_PoolHeap. */
    method InitHeap(base: Word, size: Word)
      modifies this
      ensures typ == TypeHeap && segHeadPtr == this && segPrevPtr == null && segNextPtr == null
      ensures poolPrevPtr == null && poolNextPtr == null && poolPtrs == null && blkNbr == 0 && blkIx == 0
      ensures segAddr == base && segSizeTot == size && Seg() == Cursor(base, size)
    {
      Clr();
      typ := TypeHeap;
      segHeadPtr := this;
      InitSeg(base, size);
    }

    /** A segment with nothing allocated. */
    method InitSeg(base: Word, size: Word)
      modifies this`segAddr, this`segAddrNextAvail, this`segSizeTot, this`segSizeRem
      ensures segAddr == base && segSizeTot == size && Seg() == Cursor(base, size)
    {
      segAddr := base;
      segAddrNextAvail := base;
      segSizeTot := size;
      segSizeRem := size;
    }

    /** The end of Mem_PoolCreate: n blocks that take size octets from addr on, all free. */
    method CfgPool(addr: Word, size: Word, ptrs: array<Word>, sizeOfBlk: Word, align: Word)
      modifies this`typ, this`poolAddrStart, this`poolAddrEnd, this`poolPtrs, this`poolSize
      modifies this`blkAlign, this`blkSize, this`blkNbr, this`blkIx
      ensures typ == TypePool && poolPtrs == ptrs && poolSize == size && blkNbr == blkIx == ptrs.Length
      ensures AsLayout() == Layout(addr, Wrap(addr + size - 1), sizeOfBlk, align)
    {
      typ := TypePool;
      poolAddrStart := addr;
      poolAddrEnd := Wrap(addr + size - 1);
      poolPtrs := ptrs;
      poolSize := size;
      blkAlign := align;
      blkSize := sizeOfBlk;
      blkNbr := ptrs.Length;
      blkIx := ptrs.Length;
    }

    /** The pointer updates that put this segment between prev and next in the list. */
    method LinkSeg(prev: MemPool?, next: MemPool?)
      requires prev != this && next != this && (prev == null || prev != next)
      modifies this`segPrevPtr, this`segNextPtr, this`segHeadPtr, Opt(prev)`segNextPtr, Opt(next)`segPrevPtr
      ensures segPrevPtr == prev && segNextPtr == next && segHeadPtr == this
      ensures prev != null ==> prev.segNextPtr == this
      ensures next != null ==> next.segPrevPtr == this
    {
      segPrevPtr := prev;
      segNextPtr := next;
      if prev != null {
        prev.segNextPtr := this;
      }
      if next != null {
        next.segPrevPtr := this;
      }
      segHeadPtr := this;
    }

    /** The pointer updates that put this pool right behind the head seg of its segment. */
    method LinkPool(seg: MemPool)
      requires seg != this && seg.poolNextPtr != this
      modifies this`poolPrevPtr, this`poolNextPtr, this`segHeadPtr, seg`poolNextPtr, Opt(seg.poolNextPtr)`poolPrevPtr
      ensures poolPrevPtr == seg && poolNextPtr == old(seg.poolNextPtr) && segHeadPtr == seg
      ensures seg.poolNextPtr == this
      ensures poolNextPtr != null ==> poolNextPtr.poolPrevPtr == this
    {
      var next := seg.poolNextPtr;
      poolPrevPtr := seg;
      poolNextPtr := next;
      seg.poolNextPtr := this;
      if next != null {
        next.poolPrevPtr := this;
      }
      segHeadPtr := seg;
    }

    // ---------------------------------------------------------------- segment

    function Seg(): Cursor
      reads this`segAddrNextAvail, this`segSizeRem
    {
      Cursor(segAddrNextAvail, segSizeRem)
    }

    /** Mem_SegAlloc. */
    method AllocSeg(argChk: bool, size: Word, align: Word) returns (blk: Word)
      requires align > 0
      modifies this`segAddrNextAvail, this`segSizeRem
      ensures Alloc(Seg(), blk) == SegAlloc(argChk, old(Seg()), size, align)
    {
      var memAlign := segAddrNextAvail % align;
      var alignOffset := if memAlign != 0 then align - memAlign else 0;
      var sizeTot := Wrap(alignOffset + size);
      if sizeTot > segSizeRem {
        return 0;
      }
      if argChk && (sizeTot < alignOffset || sizeTot < size) {
        return 0;
      }
      var addrNext := Wrap(segAddrNextAvail + sizeTot);
      if argChk && addrNext < segAddrNextAvail {
        return 0;
      }
      blk := Wrap(segAddrNextAvail + alignOffset);
      segAddrNextAvail := addrNext;
      segSizeRem := segSizeRem - sizeTot;
    }

    /** The loop of Mem_PoolCreate that allocates the blocks, up to the first failure. */
    method AllocBlks(argChk: bool, n: Word, size: Word, align: Word) returns (ptrs: array<Word>, nbr: nat)
      requires align > 0
      modifies this`segAddrNextAvail, this`segSizeRem
      ensures fresh(ptrs) && ptrs.Length == n && nbr <= n
      ensures Allocs(Seg(), ptrs[..nbr]) == SegAllocs(argChk, old(Seg()), n, size, align)
    {
      ptrs := new Word[n];
      nbr := 0;
      ghost var c := Seg();
      var more := true;
      while nbr < n && more
        invariant nbr <= n
        invariant more ==> Allocs(Seg(), ptrs[..nbr]) == SegAllocs(argChk, c, nbr, size, align)
        invariant !more ==> Allocs(Seg(), ptrs[..nbr]) == SegAllocs(argChk, c, n, size, align)
        decreases n - nbr, more
      {
        more := AllocNext(argChk, ptrs, nbr, n, size, align, c);
        nbr := if more then nbr + 1 else nbr;
      }
    }

    /** One turn of that loop. */
    method AllocNext(argChk: bool, ptrs: array<Word>, i: nat, n: nat, size: Word, align: Word, ghost c: Cursor)
      returns (ok: bool)
      requires align > 0 && i < n == ptrs.Length
      requires Allocs(Seg(), ptrs[..i]) == SegAllocs(argChk, c, i, size, align)
      modifies ptrs, this`segAddrNextAvail, this`segSizeRem
      ensures ok ==> Allocs(Seg(), ptrs[..i + 1]) == SegAllocs(argChk, c, i + 1, size, align)
      ensures !ok ==> Allocs(Seg(), ptrs[..i]) == SegAllocs(argChk, c, n, size, align)
    {
      ghost var m := Allocs(Seg(), ptrs[..i]);
      var blk := AllocSeg(argChk, size, align);
      SegAllocsNext(argChk, c, i, size, align, m, Alloc(Seg(), blk));
      ok := blk != 0;
      if ok {
        Store(ptrs, i, blk);
      } else {
        SegAllocsStop(argChk, c, i, n, size, align);
      }
    }

    /** ppool_ptr[i] = pmem_blk. */
    static method Store(ptrs: array<Word>, i: nat, blk: Word)
      requires i < ptrs.Length
      modifies ptrs
      ensures ptrs[..i + 1] == old(ptrs[..i]) + [blk]
    {
      ptrs[i] := blk;
    }

    // ---------------------------------------------------------------- pool

    /** PoolPtrs has BlkNbr entries. */
    predicate Shaped()
      reads this
    {
      && blkNbr == (if poolPtrs == null then 0 else poolPtrs.Length) < WORD
      && (typ == TypePool ==>
            poolPtrs != null && blkAlign > 0 && blkSize > 0 && blkSize + Pad(blkSize, blkAlign) < WORD)
    }

    ghost function AsPool(): Pool
      reads this`poolPtrs, this`blkIx, poolPtrs
    {
      Pool(if poolPtrs == null then [] else poolPtrs[..], blkIx)
    }

    ghost function AsLayout(): Layout
      reads this`poolAddrStart, this`poolAddrEnd, this`blkSize, this`blkAlign
    {
      Layout(poolAddrStart, poolAddrEnd, blkSize, blkAlign)
    }

    /** Mem_PoolBlkGet. */
    method BlkGet(argChk: bool, size: Word) returns (blk: Word, err: LibErr)
      requires Shaped()
      modifies this`blkIx
      ensures argChk && size < 1 ==> err == InvalidBlkSize
      ensures argChk && size >= 1 && typ != TypePool ==> err == InvalidPool
      ensures argChk && size >= 1 && typ == TypePool && size > blkSize ==> err == InvalidBlkSize
      ensures argChk && (size < 1 || typ != TypePool || size > blkSize) ==> blk == 0 && AsPool() == old(AsPool())
      ensures argChk ==> size < 1 || typ != TypePool || size > blkSize || Got(AsPool(), blk, err) == Get(old(AsPool()))
      ensures !argChk ==> Got(AsPool(), blk, err) == Get(old(AsPool()))
      ensures !argChk || (size >= 1 && typ == TypePool && size <= blkSize) ==>
                err == if old(blkIx) == 0 then PoolEmpty else if old(blkIx) > blkNbr then InvalidBlkIx else None
      ensures if err == None then blkIx == old(blkIx) - 1 && poolPtrs != null && blk == poolPtrs[blkIx]
              else blkIx == old(blkIx) && blk == 0
      ensures argChk && typ == TypePool && old(blkIx) <= blkNbr ==>
                Outcome(AsPool(), blk, err) == Step(AsLayout(), old(AsPool()), OpGet(size))
      ensures !argChk && old(blkIx) <= blkNbr ==>
                Outcome(AsPool(), blk, err) == UncheckedStep(old(AsPool()), OpGet(size))
    {
      if argChk && size < 1 {
        return 0, InvalidBlkSize;
      }
      if argChk && typ != TypePool {
        return 0, InvalidPool;
      }
      if argChk && size > blkSize {
        return 0, InvalidBlkSize;
      }
      if blkIx < 1 {
        return 0, PoolEmpty;
      }
      if blkIx > blkNbr {
        return 0, InvalidBlkIx;
      }
      blkIx := blkIx - 1;
      blk := poolPtrs[blkIx];
      err := None;
    }

    /** Mem_PoolBlkFree. */
    method BlkFree(argChk: bool, blk: Word) returns (err: LibErr)
      requires Shaped() && blkIx <= blkNbr
      modifies this`blkIx, poolPtrs
      ensures Shaped() && blkIx <= blkNbr
      ensures if argChk && blk != 0 && typ != TypePool then err == InvalidPool && AsPool() == old(AsPool())
              else if argChk && blk == 0 then err == NullPtr && AsPool() == old(AsPool())
              else Freed(AsPool(), err) == Free(argChk, AsLayout(), old(AsPool()), blk)
      ensures !argChk ==> err == if old(blkIx) == blkNbr then PoolFull else None
      ensures argChk && typ == TypePool && Intact(AsLayout(), old(AsPool())) ==>
                err == if blk == 0 then NullPtr
                       else if blk in old(AsPool()).ptrs[old(blkIx)..] then None
                       else if IsBlk(AsLayout(), blkNbr, blk) then InvalidBlkAddrInPool
                       else if !Fooled(AsLayout(), blk) then InvalidBlkAddr
                       else if old(blkIx) == blkNbr then PoolFull
                       else InvalidPool
      ensures argChk && typ == TypePool ==> Outcome(AsPool(), 0, err) == Step(AsLayout(), old(AsPool()), OpFree(blk))
      ensures !argChk ==> Outcome(AsPool(), 0, err) == UncheckedStep(old(AsPool()), OpFree(blk))
    {
      IntactErrors(argChk, AsLayout(), AsPool(), blk);
      if argChk {
        if blk == 0 {
          return NullPtr;
        }
        if typ != TypePool {
          return InvalidPool;
        }
        if !BlkIsValidAddr(Layout(poolAddrStart, poolAddrEnd, blkSize, blkAlign), blk) {
          return InvalidBlkAddr;
        }
        for i := 0 to blkIx
          invariant blk !in poolPtrs[..i]
        {
          if blk == poolPtrs[i] {
            assert blk in AsPool().ptrs[..blkIx];
            return InvalidBlkAddrInPool;
          }
          assert poolPtrs[..i + 1] == poolPtrs[..i] + [poolPtrs[i]];
        }
      }
      if blkIx >= blkNbr {
        return PoolFull;
      }
      var addrValid, i := false, blkIx;
      while i < blkNbr && !addrValid
        invariant blkIx <= i <= blkNbr
        invariant addrValid ==> i < blkNbr && poolPtrs[i] == blk
        invariant blk !in poolPtrs[blkIx..i]
        decreases blkNbr - i, !addrValid
      {
        if poolPtrs[i] == blk {
          addrValid := true;
        } else {
          assert poolPtrs[blkIx..i + 1] == poolPtrs[blkIx..i] + [poolPtrs[i]];
          i := i + 1;
        }
      }
      FindUnique(poolPtrs[..], blkIx, blk, i);
      if addrValid {
        poolPtrs[i] := poolPtrs[blkIx];
      } else if argChk {
        return InvalidPool;
      }
      poolPtrs[blkIx] := blk;
      blkIx := blkIx + 1;
      err := None;
    }

    /** Mem_PoolBlkGetUsedAtIx. */
    method BlkGetUsedAtIx(argChk: bool, usedIx: Word) returns (blk: Word, err: LibErr)
      requires Shaped() && blkIx <= blkNbr
      ensures if argChk && typ != TypePool then err == InvalidPool && blk == 0
              else UsedBlk(blk, err) == UsedAt(argChk, AsPool(), usedIx)
    {
      if argChk && typ != TypePool {
        return 0, InvalidPool;
      }
      if argChk && blkIx >= blkNbr {
        return 0, InvalidBlkIx;
      }
      var ix := Wrap(blkNbr - usedIx - 1);
      if ix >= blkNbr {
        return 0, InvalidBlkIx;
      }
      if ix < blkIx {
        return 0, InvalidBlkIx;
      }
      blk := poolPtrs[ix];
      err := None;
    }

    /** Mem_PoolBlkIxGet. */
    method BlkIxGet(argChk: bool, blk: Word) returns (ix: Word, err: LibErr)
      requires Shaped() && blkIx <= blkNbr
      ensures if argChk && blk == 0 then err == NullPtr
              else if argChk && typ != TypePool then err == InvalidPool
              else if argChk && !BlkIsValidAddr(AsLayout(), blk) then err == InvalidBlkAddr
              else if argChk && blk in AsPool().ptrs[..blkIx] then err == InvalidBlkAddrInPool
              else if blkIx == blkNbr then err == PoolFull
              else err == if blk in AsPool().ptrs[blkIx..] then None else InvalidPool
      ensures if err == None then
                && ix < blkNbr - blkIx && UsedIx(ix, err) == IxOf(AsPool(), blk)
                && AsPool().ptrs[blkNbr - 1 - ix] == blk && blk !in AsPool().ptrs[blkIx..blkNbr - 1 - ix]
              else ix == 0xFFFF_FFFF
    {
      if argChk {
        if blk == 0 {
          return INVALID_IX, NullPtr;
        }
        if typ != TypePool {
          return INVALID_IX, InvalidPool;
        }
        if !BlkIsValidAddr(Layout(poolAddrStart, poolAddrEnd, blkSize, blkAlign), blk) {
          return INVALID_IX, InvalidBlkAddr;
        }
        for i := 0 to blkIx
          invariant blk !in poolPtrs[..i]
        {
          if blk == poolPtrs[i] {
            assert blk in AsPool().ptrs[..blkIx];
            return INVALID_IX, InvalidBlkAddrInPool;
          }
          assert poolPtrs[..i + 1] == poolPtrs[..i] + [poolPtrs[i]];
        }
      }
      if blkIx >= blkNbr {
        return INVALID_IX, PoolFull;
      }
      var addrValid, i := false, blkIx;
      while i < blkNbr && !addrValid
        invariant blkIx <= i <= blkNbr
        invariant addrValid ==> i < blkNbr && poolPtrs[i] == blk
        invariant blk !in poolPtrs[blkIx..i]
        decreases blkNbr - i, !addrValid
      {
        if poolPtrs[i] == blk {
          addrValid := true;
        } else {
          assert poolPtrs[blkIx..i + 1] == poolPtrs[blkIx..i] + [poolPtrs[i]];
          i := i + 1;
        }
      }
      FindUnique(poolPtrs[..], blkIx, blk, i);
      FoundInUse(poolPtrs[..], blkIx, blk, i);
      if addrValid {
        ix, err := blkNbr - 1 - i, None;
      } else {
        ix, err := INVALID_IX, InvalidPool;
      }
    }
  }

  lemma IntactErrors(argChk: bool, l: Layout, p: Pool, blk: Word)
    ensures argChk && Intact(l, p) ==>
              Free(argChk, l, p, blk).err ==
              if blk == 0 then NullPtr
              else if blk in p.ptrs[p.ix..] then None
              else if IsBlk(l, |p.ptrs|, blk) then InvalidBlkAddrInPool
              else if !Fooled(l, blk) then InvalidBlkAddr
              else if p.ix == |p.ptrs| then PoolFull
              else InvalidPool
  {
    if argChk && Intact(l, p) {
      FreeErrors(l, |p.ptrs|, p, Elems(p.ptrs[p.ix..]), blk);
      NoneHeld(p, Blocks(l, |p.ptrs|), Elems(p.ptrs[p.ix..]));
    }
  }

  /** A failure ends the run. */
  lemma {:induction false} SegAllocsStop(argChk: bool, c: Cursor, i: nat, n: nat, size: Word, align: Word)
    requires align > 0 && i < n && |SegAllocs(argChk, c, i + 1, size, align).blks| == i
    ensures SegAllocs(argChk, c, n, size, align) == SegAllocs(argChk, c, i + 1, size, align)
    decreases n
  {
    if i + 1 < n { SegAllocsStop(argChk, c, i, n - 1, size, align); }
  }

  lemma SegAllocsNext(argChk: bool, c: Cursor, i: nat, size: Word, align: Word, m: Allocs, a: Alloc)
    requires align > 0 && m == SegAllocs(argChk, c, i, size, align) && |m.blks| == i
    requires a == SegAlloc(argChk, m.cursor, size, align)
    ensures SegAllocs(argChk, c, i + 1, size, align) ==
            Allocs(a.cursor, if a.blk == 0 then m.blks else m.blks + [a.blk])
  {
  }

  lemma FoundInUse(ptrs: seq<Word>, lo: nat, blk: Word, i: nat)
    requires lo <= i <= |ptrs| && blk !in ptrs[lo..i] && (i < |ptrs| ==> ptrs[i] == blk)
    ensures blk in ptrs[lo..] <==> i < |ptrs|
  {
    if i < |ptrs| {
      assert ptrs[lo..][i - lo] == blk;
    } else {
      assert ptrs[lo..i] == ptrs[lo..];
    }
  }

  /** The search loop stops where Find does. */
  lemma {:induction false} FindUnique(ptrs: seq<Word>, lo: nat, blk: Word, i: nat)
    requires lo <= i <= |ptrs| && blk !in ptrs[lo..i] && (i < |ptrs| ==> ptrs[i] == blk)
    ensures Find(ptrs, lo, blk) == i
    decreases i - lo
  {
    if lo < i {
      assert ptrs[lo..i] == [ptrs[lo]] + ptrs[lo + 1..i];
      FindUnique(ptrs, lo + 1, blk, i);
    }
  }
}
