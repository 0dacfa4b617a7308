/** UCOSIII/uC-LIB/lib_mem.c: the memory pool table, the heap, and the creation of pools. */
module MemoryTable {
  import opened WordArithmetic
  import opened SegmentArithmetic
  import opened MemoryPool
  import opened MemPoolObject
  import opened TableLinks
  import opened TableSpace

  /** sizeof(void *). */
  const PTR_SIZE: Word := 4

  /** DEF_ALIGN_MAX_NBR_OCTETS. */
  const ALIGN_MAX: Word := 4096

  function LinksOf(p: MemPool): Links
    reads p`segHeadPtr, p`segPrevPtr, p`segNextPtr, p`poolPrevPtr, p`poolNextPtr
  {
    Links(p.segHeadPtr, p.segPrevPtr, p.segNextPtr, p.poolPrevPtr, p.poolNextPtr)
  }

  function SpaceOf(p: MemPool): Space
    reads p`segAddr, p`segSizeTot, p`segAddrNextAvail, p`segSizeRem
  {
    Space(p.segAddr, p.segSizeTot, p.Seg())
  }

  /** The link fields of the objects are the recorded ones. */
  ghost predicate Linked(l: map<MemPool, Links>)
    reads l.Keys`segHeadPtr, l.Keys`segPrevPtr, l.Keys`segNextPtr, l.Keys`poolPrevPtr, l.Keys`poolNextPtr
  {
    forall p {:trigger LinksOf(p)} :: p in l ==> LinksOf(p) == l[p]
  }

  /** The extents and cursors of the segments are the recorded ones. */
  ghost predicate Measured(sp: map<MemPool, Space>)
    reads sp.Keys`segAddr, sp.Keys`segSizeTot, sp.Keys`segAddrNextAvail, sp.Keys`segSizeRem
  {
    forall s {:trigger SpaceOf(s)} :: s in sp ==> SpaceOf(s) == sp[s]
  }

  // ---------------------------------------------------------------- size checks before creation

  /** The arguments of Mem_PoolCreate; a null base asks for blocks from the heap. */
  datatype Ask = Ask(base: Word, memSize: Word, blkNbr: Word, blkSize: Word, blkAlign: Word)

  /** What the checks of Mem_PoolCreate decide: an error with the octets missing, or where the
      blocks are expected to start and how much they take. */
  datatype Plan = Plan(err: LibErr, octetsReqd: Word, addrPool: Word, sizeTotPool: Word)

  function Fail(err: LibErr, octetsReqd: Word): Plan { Plan(err, octetsReqd, 0, 0) }

  /** What the argument checks ask for. */
  predicate Positive(q: Ask) {
    0 < q.blkNbr && 0 < q.blkSize && 0 < q.blkAlign && (q.base != 0 ==> 0 < q.memSize)
  }

  /** The checks for a pool whose blocks come from the heap. */
  function HeapPlan(argChk: bool, heap: Cursor, q: Ask): Plan
    requires q.blkAlign > 0
  {
    var ptrs := SegCalcTotSize(argChk, heap.next, q.blkNbr, PTR_SIZE, PTR_SIZE);
    var addrPool := Wrap(heap.next + ptrs);
    HeapChecks(argChk, heap.rem, ptrs, addrPool, SegCalcTotSize(argChk, addrPool, q.blkNbr, q.blkSize, q.blkAlign))
  }

  function HeapChecks(argChk: bool, rem: Word, ptrs: Word, addrPool: Word, blks: Word): Plan {
    var tot := Wrap(ptrs + blks);
    if argChk && ptrs < 1 then Fail(HeapOvf, 0)
    else if argChk && blks < 1 then Fail(HeapOvf, 0)
    else if argChk && (tot < ptrs || tot < blks) then Fail(HeapOvf, 0)
    else if tot > rem then Fail(HeapEmpty, tot - rem)
    else Plan(None, 0, addrPool, blks)
  }

  /** The checks for a pool whose blocks come from dedicated memory. */
  function SegPlan(argChk: bool, heap: Cursor, seg: Cursor, q: Ask): Plan
    requires q.blkAlign > 0
  {
    SegChecks(argChk, heap.rem, seg, SegCalcTotSize(argChk, heap.next, q.blkNbr, PTR_SIZE, PTR_SIZE),
              SegCalcTotSize(argChk, seg.next, q.blkNbr, q.blkSize, q.blkAlign))
  }

  function SegChecks(argChk: bool, rem: Word, seg: Cursor, ptrs: Word, blks: Word): Plan {
    if argChk && ptrs < 1 then Fail(HeapOvf, 0)
    else if ptrs > rem then Fail(HeapEmpty, ptrs - rem)
    else if argChk && blks < 1 then Fail(SegOvf, 0)
    else if blks > seg.rem then Fail(SegEmpty, blks - seg.rem)
    else Plan(None, 0, seg.next, blks)
  }

  /** What the pointer array of a pool needs from the heap. */
  function PtrsSize(heap: Cursor, blkNbr: nat): nat { Pad(heap.next, PTR_SIZE) + PTR_SIZE * blkNbr }

  /** The size that Mem_PoolCreate allocates for the pointer array, wrapping as the source does. */
  function ArraySize(blkNbr: Word): (n: Word)
    ensures PTR_SIZE * blkNbr < WORD ==> n == PTR_SIZE * blkNbr
  {
    if PTR_SIZE * blkNbr < WORD then
      WrapSmall(PTR_SIZE * blkNbr);
      Wrap(PTR_SIZE * blkNbr)
    else Wrap(PTR_SIZE * blkNbr)
  }

  /** What allocating that takes from the heap. */
  function PtrsTaken(heap: Cursor, blkNbr: Word): nat { Pad(heap.next, PTR_SIZE) + ArraySize(blkNbr) }

  /** The overflow tests let the size of the pointer array pass: it fits in 32 bits, or it wraps to
      two pointers or more. */
  predicate PtrsPass(heap: Cursor, blkNbr: Word) {
    PTR_SIZE * blkNbr < WORD || (2 * PTR_SIZE <= ArraySize(blkNbr) && PtrsTaken(heap, blkNbr) < WORD)
  }

  /** What the blocks take when the first may start at addr. */
  function BlksSize(addr: nat, q: Ask): (n: nat)
    requires Positive(q)
    ensures n > 0
  {
    TotSizePositive(addr, q.blkNbr, q.blkSize, q.blkAlign);
    TotSize(addr, q.blkNbr, q.blkSize, q.blkAlign)
  }

  lemma TotSizePositive(addr: nat, blkNbr: nat, blkSize: nat, blkAlign: nat)
    requires 0 < blkNbr && blkSize > 0 && blkAlign > 0
    ensures TotSize(addr, blkNbr, blkSize, blkAlign) > 0
  {
    ProductMonotone(Stride(blkSize, blkAlign), 0, blkNbr - 1);
  }

  lemma PtrsExact(argChk: bool, heap: Cursor, blkNbr: Word)
    requires 0 < blkNbr && PTR_SIZE * blkNbr < WORD
    ensures SegCalcTotSize(argChk, heap.next, blkNbr, PTR_SIZE, PTR_SIZE) == PtrsSize(heap, blkNbr) < WORD
    ensures 0 < PtrsSize(heap, blkNbr)
  {
    assert Pad(PTR_SIZE, PTR_SIZE) == 0;
    CalcIsTotSize(argChk, heap.next, blkNbr, PTR_SIZE, PTR_SIZE);
  }

  lemma ArrayWraps(blkNbr: Word)
    requires 0 < blkNbr
    ensures var p := Wrap(PTR_SIZE * (blkNbr - 1));
            Wrap(PTR_SIZE * blkNbr) == if p + PTR_SIZE < WORD then p + PTR_SIZE else p + PTR_SIZE - WORD
  {
    var p := Wrap(PTR_SIZE * (blkNbr - 1));
    ProductWraps(0, PTR_SIZE * (blkNbr - 1), PTR_SIZE);
    WrapOnce(p + PTR_SIZE);
  }

  lemma UnnoticedIs(heap: Cursor, blkNbr: Word, total: nat, p: Word)
    requires 0 < blkNbr && total == PTR_SIZE * (blkNbr - 1) && p == Wrap(total)
    ensures Unnoticed(heap.next, blkNbr, PTR_SIZE, PTR_SIZE) <==> Slips(Pad(heap.next, PTR_SIZE), PTR_SIZE, total, p, PTR_SIZE)
  {
    UnnoticedUnits(heap.next, blkNbr, PTR_SIZE, total, p);
  }

  /** In the terms of the size calculation: an array that wraps passes exactly when it is unnoticed. */
  lemma PtrsUnnoticed(heap: Cursor, blkNbr: Word)
    requires 0 < blkNbr
    ensures Unnoticed(heap.next, blkNbr, PTR_SIZE, PTR_SIZE) <==> PTR_SIZE * blkNbr >= WORD && PtrsPass(heap, blkNbr)
  {
    var p := Wrap(PTR_SIZE * (blkNbr - 1));
    UnnoticedIs(heap, blkNbr, PTR_SIZE * (blkNbr - 1), p);
    ArrayWraps(blkNbr);
    if PTR_SIZE * (blkNbr - 1) < WORD { WrapSmall(PTR_SIZE * (blkNbr - 1)); }
  }

  lemma PtrsWrapped(heap: Cursor, blkNbr: Word)
    requires 0 < blkNbr && Unnoticed(heap.next, blkNbr, PTR_SIZE, PTR_SIZE)
    ensures SegCalcTotSize(true, heap.next, blkNbr, PTR_SIZE, PTR_SIZE) == Pad(heap.next, PTR_SIZE) + Wrap(PTR_SIZE * blkNbr)
  {
    assert Stride(PTR_SIZE, PTR_SIZE) == PTR_SIZE;
    CalcDecides(true, heap.next, blkNbr, PTR_SIZE, PTR_SIZE);
    UnnoticedSize(heap.next, blkNbr, PTR_SIZE, PTR_SIZE);
    ArrayWraps(blkNbr);
  }

  lemma PtrsTotSize(heap: Cursor, blkNbr: Word)
    requires 0 < blkNbr
    ensures TotSize(heap.next, blkNbr, PTR_SIZE, PTR_SIZE) == PtrsSize(heap, blkNbr)
  {
    assert Stride(PTR_SIZE, PTR_SIZE) == PTR_SIZE;
  }

  /** What the checked build computes for the pointer array: what will be taken, or 0. */
  lemma PtrsCalc(heap: Cursor, blkNbr: Word)
    requires 0 < blkNbr
    ensures SegCalcTotSize(true, heap.next, blkNbr, PTR_SIZE, PTR_SIZE) ==
            if PtrsPass(heap, blkNbr) then PtrsTaken(heap, blkNbr) else 0
    ensures PtrsPass(heap, blkNbr) ==> 0 < PtrsTaken(heap, blkNbr) < WORD
  {
    PtrsTotSize(heap, blkNbr);
    PtrsUnnoticed(heap, blkNbr);
    if PTR_SIZE * blkNbr < WORD {
      PtrsExact(true, heap, blkNbr);
    } else if PtrsPass(heap, blkNbr) {
      PtrsWrapped(heap, blkNbr);
    } else {
      CalcDecides(true, heap.next, blkNbr, PTR_SIZE, PTR_SIZE);
    }
  }

  /** Beyond 2^30 blocks the product in the size of the pointer array can wrap past the checks. */
  lemma PtrsOverflowMissed()
    ensures Unnoticed(0x1000, 0x4000_0003, PTR_SIZE, PTR_SIZE)
    ensures SegCalcTotSize(true, 0x1000, 0x4000_0003, PTR_SIZE, PTR_SIZE) == 12
    ensures TotSize(0x1000, 0x4000_0003, PTR_SIZE, PTR_SIZE) == 0x1_0000_000C
  {
    assert Pad(0x1000, PTR_SIZE) == 0 && Pad(PTR_SIZE, PTR_SIZE) == 0;
    MissedAt(0x1000, 0x4000_0003, PTR_SIZE, PTR_SIZE);
  }

  /** The decision that pointer array and blocks call for when they come from one place. */
  function HeapVerdict(heap: Cursor, ptrs: nat, blks: nat): Plan
    requires heap.next + ptrs < WORD && ptrs + blks < WORD
  {
    if ptrs + blks > heap.rem then Fail(HeapEmpty, ptrs + blks - heap.rem)
    else Plan(None, 0, heap.next + ptrs, blks)
  }

  /** The decision that they call for when they come from two places. */
  function SegVerdict(rem: Word, seg: Cursor, ptrs: nat, blks: nat): Plan
    requires ptrs < WORD && blks < WORD
  {
    if ptrs > rem then Fail(HeapEmpty, ptrs - rem)
    else if blks > seg.rem then Fail(SegEmpty, blks - seg.rem)
    else Plan(None, 0, seg.next, blks)
  }

  /** When the sizes do not overflow, the heap checks pass exactly when pointer array and blocks
      fit together, and otherwise report what is missing. */
  lemma HeapPlanExact(argChk: bool, heap: Cursor, q: Ask)
    requires Positive(q) && PTR_SIZE * q.blkNbr < WORD
    requires heap.next + PtrsSize(heap, q.blkNbr) < WORD
    requires PtrsSize(heap, q.blkNbr) + BlksSize(heap.next + PtrsSize(heap, q.blkNbr), q) < WORD
    ensures var t := PtrsSize(heap, q.blkNbr);
            HeapPlan(argChk, heap, q) == HeapVerdict(heap, t, BlksSize(heap.next + t, q))
  {
    var t := PtrsSize(heap, q.blkNbr);
    PtrsExact(argChk, heap, q.blkNbr);
    WrapSmall(heap.next + t);
    CalcIsTotSize(argChk, heap.next + t, q.blkNbr, q.blkSize, q.blkAlign);
    HeapChecksExact(argChk, heap, t, BlksSize(heap.next + t, q));
  }

  lemma HeapChecksExact(argChk: bool, heap: Cursor, t: Word, u: Word)
    requires 0 < t && 0 < u && t + u < WORD && heap.next + t < WORD
    ensures HeapChecks(argChk, heap.rem, t, heap.next + t, u) == HeapVerdict(heap, t, u)
  {
    WrapSmall(t + u);
  }

  /** The checks against dedicated memory likewise. */
  lemma SegPlanExact(argChk: bool, heap: Cursor, seg: Cursor, q: Ask)
    requires Positive(q) && PTR_SIZE * q.blkNbr < WORD && BlksSize(seg.next, q) < WORD
    ensures PtrsSize(heap, q.blkNbr) < WORD
    ensures SegPlan(argChk, heap, seg, q) ==
            SegVerdict(heap.rem, seg, PtrsSize(heap, q.blkNbr), BlksSize(seg.next, q))
  {
    PtrsExact(argChk, heap, q.blkNbr);
    CalcIsTotSize(argChk, seg.next, q.blkNbr, q.blkSize, q.blkAlign);
  }

  /** Whatever overflows: once the checks of the checked build pass, what is computed for the pointer
      array fits. */
  lemma PlanLeavesPtrs(heap: Cursor, q: Ask)
    requires Positive(q)
    ensures HeapPlan(true, heap, q).err == None ==>
              PtrsPass(heap, q.blkNbr) && PtrsTaken(heap, q.blkNbr) <= heap.rem
  {
    var t := SegCalcTotSize(true, heap.next, q.blkNbr, PTR_SIZE, PTR_SIZE);
    PtrsCalc(heap, q.blkNbr);
    WrapOnce(t + SegCalcTotSize(true, Wrap(heap.next + t), q.blkNbr, q.blkSize, q.blkAlign));
  }

  lemma SegPlanLeavesPtrs(heap: Cursor, seg: Cursor, q: Ask)
    requires Positive(q) && SegPlan(true, heap, seg, q).err == None
    ensures PtrsPass(heap, q.blkNbr) && PtrsTaken(heap, q.blkNbr) <= heap.rem
  {
    PtrsCalc(heap, q.blkNbr);
  }

  // ---------------------------------------------------------------- one step of the search

  /** How a requested segment lies relative to one of the table. */
  datatype Relation = Identical | InFront | Overlapping | Behind

  /** The comparisons that the search loop of Mem_PoolCreate makes with each segment. */
  function Compare(segAddr: Word, segSizeTot: Word, base: Word, memSize: Word): Relation
    requires 0 < segAddr && 0 < segSizeTot && segAddr + segSizeTot < WORD && 0 < memSize && base + memSize < WORD
  {
    var baseEnd, segEnd := base + memSize - 1, segAddr + segSizeTot - 1;
    if base == segAddr && memSize == segSizeTot then Identical
    else if baseEnd < segAddr then InFront
    else if || (base <= segAddr && baseEnd >= segAddr)
            || (base >= segAddr && baseEnd <= segEnd)
            || (base <= segEnd && baseEnd >= segEnd) then Overlapping
    else Behind
  }

  ghost function RelationOf(s: Space, base: nat, memSize: nat): Relation {
    if Same(s, base, memSize) then Identical
    else if Overlaps(s, base, memSize) then Overlapping
    else if base + memSize <= s.addr then InFront
    else Behind
  }

  /** The three-way test finds exactly the overlapping segments. */
  lemma CompareIs(s: Space, base: Word, memSize: Word)
    requires Sound(s) && 0 < memSize && base + memSize < WORD
    ensures Compare(s.addr, s.size, base, memSize) == RelationOf(s, base, memSize)
    ensures RelationOf(s, base, memSize) == Behind ==> s.addr + s.size <= base
    ensures RelationOf(s, base, memSize) != Behind ==> base < s.addr + s.size
  {
  }

  // ---------------------------------------------------------------- what a creation asks of the table

  /** The requested memory, if any, ends below the top of the address space. */
  predicate InRange(q: Ask) { q.base == 0 || q.base + q.memSize < WORD }

  /** Some segment of the table overlaps the requested one without being identical to it. */
  ghost predicate Clashes(t: Table, q: Ask) {
    exists i :: 0 <= i < |t.segs| && Clash(t.space[t.segs[i]], q)
  }

  predicate Clash(s: Space, q: Ask) { Overlaps(s, q.base, q.memSize) && !Same(s, q.base, q.memSize) }

  /** Where the search for the requested segment stops, and what it finds there. */
  ghost function Where(t: Table, q: Ask): nat { Stop(t.space, t.segs, q.base, 0) }

  ghost function Met(t: Table, q: Ask): Relation {
    if Where(t, q) < |t.segs| then RelationOf(t.space[t.segs[Where(t, q)]], q.base, q.memSize) else Behind
  }

  lemma MetOverlapping(t: Table, q: Ask)
    requires q.memSize > 0
    ensures Met(t, q) == Overlapping <==> Clashes(t, q)
  {
    StopDecides(t.space, t.segs, q.base, q.memSize);
    var at := Where(t, q);
    if Met(t, q) == Overlapping { assert Clash(t.space[t.segs[at]], q); }
  }

  /** The request and some segment of the table have an octet in common, and are not the same memory. */
  lemma ClashesIff(t: Table, q: Ask)
    requires q.memSize > 0
    ensures Clashes(t, q) <==>
            exists s: MemPool, a: nat :: s in t.space && Contains(t.space[s], a) && q.base <= a < q.base + q.memSize
                                         && !(t.space[s].addr == q.base && t.space[s].size == q.memSize)
  {
    if Clashes(t, q) {
      var i :| 0 <= i < |t.segs| && Clash(t.space[t.segs[i]], q);
      var s := t.segs[i];
      assert Sound(t.space[s]);
      assert Contains(t.space[s], if t.space[s].addr <= q.base then q.base else t.space[s].addr);
    }
    if s: MemPool, a: nat :| s in t.space && Contains(t.space[s], a) && q.base <= a < q.base + q.memSize
                             && !(t.space[s].addr == q.base && t.space[s].size == q.memSize) {
      var i :| 0 <= i < |t.segs| && t.segs[i] == s;
      assert Clash(t.space[t.segs[i]], q);
    }
  }

  predicate Contains(s: Space, a: nat) { s.addr <= a < s.addr + s.size }

  /** The segment that the blocks of the pool come from. */
  ghost function Head(t: Table, heap: MemPool, pool: MemPool, q: Ask): MemPool {
    if q.base == 0 then heap else if Met(t, q) == Identical then t.segs[Where(t, q)] else pool
  }

  ghost function HeadCursor(t: Table, heap: MemPool, q: Ask): Cursor
    requires heap in t.space
  {
    if q.base == 0 then t.space[heap].cursor
    else if Met(t, q) == Identical then t.space[t.segs[Where(t, q)]].cursor
    else Cursor(q.base, q.memSize)
  }

  /** The request names the heap's own memory as dedicated memory. */
  ghost predicate NamesHeap(t: Table, heap: MemPool, q: Ask)
    requires heap in t.space
  {
    q.base != 0 && Same(t.space[heap], q.base, q.memSize)
  }

  /** Pointer array and blocks come from the same cursor. */
  ghost predicate OneSource(t: Table, heap: MemPool, q: Ask)
    requires heap in t.space
  {
    q.base == 0 || NamesHeap(t, heap, q)
  }

  /** The address from which the blocks are taken. */
  ghost function Start(t: Table, heap: MemPool, q: Ask): nat
    requires heap in t.space
  {
    var h := t.space[heap].cursor;
    if OneSource(t, heap, q) then h.next + PtrsTaken(h, q.blkNbr) else HeadCursor(t, heap, q).next
  }

  /** The true sizes fit in 32 bits. */
  ghost predicate Sized(t: Table, heap: MemPool, q: Ask)
    requires heap in t.space && Positive(q)
  {
    var start := Start(t, heap, q);
    && PTR_SIZE * q.blkNbr < WORD
    && if OneSource(t, heap, q) then
         start < WORD && PtrsSize(t.space[heap].cursor, q.blkNbr) + BlksSize(start, q) < WORD
       else BlksSize(start, q) < WORD
  }

  /** What the blocks may take when they are allocated. */
  ghost function Room(t: Table, heap: MemPool, q: Ask): int
    requires heap in t.space
  {
    var h := t.space[heap].cursor;
    if OneSource(t, heap, q) then h.rem - PtrsTaken(h, q.blkNbr) else HeadCursor(t, heap, q).rem
  }

  /** Nothing clashes, and pointer array and blocks fit what remains where they come from. */
  ghost predicate Suffices(t: Table, heap: MemPool, q: Ask)
    requires heap in t.space && Positive(q)
  {
    var h, blks := t.space[heap].cursor, BlksSize(Start(t, heap, q), q);
    var ptrs := PtrsSize(h, q.blkNbr);
    if OneSource(t, heap, q) then ptrs + blks <= h.rem
    else !Clashes(t, q) && ptrs <= h.rem && blks <= HeadCursor(t, heap, q).rem
  }

  /** What the checks of Mem_PoolCreate decide. */
  ghost function PlanOf(argChk: bool, t: Table, heap: MemPool, q: Ask): Plan
    requires heap in t.space && q.blkAlign > 0
  {
    if q.base == 0 then HeapPlan(argChk, t.space[heap].cursor, q)
    else if Clashes(t, q) then Fail(InvalidSegOverlap, 0)
    else SegPlan(argChk, t.space[heap].cursor, HeadCursor(t, heap, q), q)
  }

  /** What they must decide when the true sizes fit in 32 bits. */
  ghost function Verdict(t: Table, heap: MemPool, q: Ask): Plan
    requires heap in t.space && Positive(q) && Sized(t, heap, q)
  {
    var h := t.space[heap].cursor;
    var n := PtrsSize(h, q.blkNbr);
    PtrsExact(true, h, q.blkNbr);
    if q.base == 0 then HeapVerdict(h, n, BlksSize(h.next + n, q))
    else if Clashes(t, q) then Fail(InvalidSegOverlap, 0)
    else
      var c := HeadCursor(t, heap, q);
      BlksFromCursor(t, heap, q);
      SegVerdict(h.rem, c, n, BlksSize(c.next, q))
  }

  /** The heap is found when its own memory is named. */
  lemma NamesHeapMet(t: Table, heap: MemPool, q: Ask)
    requires heap in t.space && q.base != 0 && q.memSize > 0
    ensures NamesHeap(t, heap, q) <==> Met(t, q) == Identical && t.segs[Where(t, q)] == heap
    ensures NamesHeap(t, heap, q) ==> !Clashes(t, q) && HeadCursor(t, heap, q) == t.space[heap].cursor
  {
    if NamesHeap(t, heap, q) {
      var i :| 0 <= i < |t.segs| && t.segs[i] == heap;
      StopAtSame(t.space, t.segs, q.base, q.memSize, i);
      MetOverlapping(t, q);
    }
  }

  /** Blocks from further up need no less. */
  lemma BlksLater(addr: nat, n: nat, q: Ask)
    requires Positive(q)
    ensures BlksSize(addr, q) <= n + BlksSize(addr + n, q)
  {
    FirstLater(addr, n, q.blkAlign);
  }

  lemma BlksFromCursor(t: Table, heap: MemPool, q: Ask)
    requires heap in t.space && Positive(q) && Sized(t, heap, q)
    ensures q.base != 0 ==> BlksSize(HeadCursor(t, heap, q).next, q) < WORD
  {
    if q.base != 0 && NamesHeap(t, heap, q) {
      NamesHeapMet(t, heap, q);
      BlksLater(t.space[heap].cursor.next, PtrsSize(t.space[heap].cursor, q.blkNbr), q);
    }
  }

  /** The requested segment lies between prev and next. */
  ghost predicate Gap(t: Table, prev: MemPool?, next: MemPool?, q: Ask) {
    var at := Where(t, q);
    && prev == Before(t.segs, at) && next == At(t.segs, at)
    && (at < |t.segs| ==> q.base + q.memSize <= t.space[t.segs[at]].addr)
  }

  lemma HeadInSegment(t: Table, heap: MemPool, q: Ask) returns (end: nat)
    requires heap in t.space && Positive(q) && InRange(q)
    ensures InSegment(HeadCursor(t, heap, q), end)
  {
    if q.base != 0 && Met(t, q) != Identical {
      end := q.base + q.memSize;
    } else {
      var s := Head(t, heap, heap, q);
      assert Sound(t.space[s]) by {
        var i :| 0 <= i < |t.segs| && t.segs[i] == s;
        assert Sound(t.space[t.segs[i]]);
      }
      end := t.space[s].addr + t.space[s].size;
    }
  }

  /** The checks decide as the true sizes call for. */
  lemma PlanIsVerdict(argChk: bool, t: Table, heap: MemPool, q: Ask)
    requires heap in t.space && Positive(q) && Sized(t, heap, q)
    ensures PlanOf(argChk, t, heap, q) == Verdict(t, heap, q)
  {
    if q.base == 0 {
      HeapPlanExact(argChk, t.space[heap].cursor, q);
    } else if !Clashes(t, q) {
      BlksFromCursor(t, heap, q);
      SegPlanExact(argChk, t.space[heap].cursor, HeadCursor(t, heap, q), q);
    }
  }

  /** Once they pass, what is allocated for the pointer array fits, whatever overflows. */
  lemma PlanLeavesRoom(argChk: bool, t: Table, heap: MemPool, q: Ask)
    requires heap in t.space && Positive(q) && (argChk || Sized(t, heap, q))
    requires PlanOf(argChk, t, heap, q).err == None
    ensures PtrsPass(t.space[heap].cursor, q.blkNbr)
    ensures PtrsTaken(t.space[heap].cursor, q.blkNbr) <= t.space[heap].cursor.rem
  {
    var h := t.space[heap].cursor;
    if !argChk {
      PlanIsVerdict(argChk, t, heap, q);
    } else if q.base != 0 {
      SegPlanLeavesPtrs(h, HeadCursor(t, heap, q), q);
    } else {
      PlanLeavesPtrs(h, q);
    }
  }

  lemma SufficesSized(t: Table, heap: MemPool, q: Ask)
    requires heap in t.space && Positive(q) && InRange(q) && Suffices(t, heap, q)
    ensures Sized(t, heap, q)
  {
    var end := HeadInSegment(t, heap, q);
    var last := HeadInSegment(t, heap, q.(base := 0));
  }

  /** When everything suffices the checks pass. They pass for nothing else, unless the request
      names the heap's own memory: then they overlook that the pointer array comes first. */
  lemma VerdictSuffices(t: Table, heap: MemPool, q: Ask)
    requires heap in t.space && Positive(q) && Sized(t, heap, q)
    ensures Suffices(t, heap, q) ==> Verdict(t, heap, q).err == None
    ensures !NamesHeap(t, heap, q) ==> (Verdict(t, heap, q).err == None <==> Suffices(t, heap, q))
    ensures Verdict(t, heap, q).err == None ==> Verdict(t, heap, q).octetsReqd == 0
  {
    if NamesHeap(t, heap, q) {
      NamesHeapMet(t, heap, q);
      BlksLater(t.space[heap].cursor.next, PtrsSize(t.space[heap].cursor, q.blkNbr), q);
    }
  }

  /** The table with a new segment and the blocks taken from it. */
  lemma NewSegment(t: Table, heap: MemPool, pool: MemPool, argChk: bool, q: Ask, r: Allocs) returns (u: Table)
    requires t.segs != [] && pool !in t.links && 0 < q.base && 0 < q.memSize && q.base + q.memSize < WORD && q.blkAlign > 0
    requires var at := Where(t, q); at < |t.segs| ==> q.base + q.memSize <= t.space[t.segs[at]].addr
    requires SaneRun(argChk, Cursor(q.base, q.memSize), q.blkNbr, q.blkSize, q.blkAlign)
    requires r == SegAllocs(argChk, Cursor(q.base, q.memSize), q.blkNbr, q.blkSize, q.blkAlign)
    ensures var at := Where(t, q);
            && (Before(t.segs, at) != null ==> Before(t.segs, at) in t.links)
            && (At(t.segs, at) != null ==> At(t.segs, at) in t.links)
            && u.segs == Insert(t.segs, at, pool) && u.cols == t.cols[pool := []]
            && u.links == Spliced(t.links, pool, Before(t.segs, at), At(t.segs, at))
            && u.space == t.space[pool := Space(q.base, q.memSize, r.cursor)]
            && u.regions == t.regions + BlkRegions(pool, r.blks, q.blkSize, q.blkAlign)
            && (heap in t.segs ==> heap in u.segs) && u.segs[0] == if at == 0 then pool else t.segs[0]
  {
    var v := AddSegment(t, pool, Where(t, q), q.base, q.memSize);
    u := TakeRun(v, pool, argChk, q.blkNbr, q.blkSize, q.blkAlign, r);
    MovedAgain(t.space, pool, Space(q.base, q.memSize, Cursor(q.base, q.memSize)), r.cursor);
  }

  lemma MovedAgain(sp: map<MemPool, Space>, pool: MemPool, s: Space, c: Cursor)
    ensures Moved(sp[pool := s], pool, c) == sp[pool := s.(cursor := c)]
  {
  }

  // ---------------------------------------------------------------- what a creation does to the table

  /** Taking memory from a segment does not change where the search stops. */
  lemma WhereMoved(t: Table, u: Table, s: MemPool, c: Cursor, q: Ask)
    requires s in t.space && SameShape(t, u) && u.space == Moved(t.space, s, c)
    ensures Where(u, q) == Where(t, q) && Met(u, q) == Met(t, q)
  {
    StopIs(u.space, u.segs, q.base, 0, Where(t, q));
  }

  /** The table once the pointer array has been taken from the heap. */
  ghost function WithPtrs(t: Table, heap: MemPool, q: Ask): (u: Table)
    requires heap in t.space && PtrsTaken(t.space[heap].cursor, q.blkNbr) <= t.space[heap].cursor.rem
    ensures SameShape(t, u) && u.space.Keys == t.space.Keys
  {
    TakenIsTable(t, heap, ArraySize(q.blkNbr), PTR_SIZE);
    WithTaken(t, heap, ArraySize(q.blkNbr), PTR_SIZE)
  }

  /** Where the blocks are then taken from, and where the search still stops. */
  lemma AfterPtrs(t: Table, heap: MemPool, pool: MemPool, q: Ask)
    requires heap in t.space && Positive(q)
    requires PtrsTaken(t.space[heap].cursor, q.blkNbr) <= t.space[heap].cursor.rem
    ensures var u := WithPtrs(t, heap, q);
            && Where(u, q) == Where(t, q) && Met(u, q) == Met(t, q) && Head(u, heap, pool, q) == Head(t, heap, pool, q)
            && HeadCursor(u, heap, q).next == Start(t, heap, q) && HeadCursor(u, heap, q).rem == Room(t, heap, q)
  {
    TakenIsTable(t, heap, ArraySize(q.blkNbr), PTR_SIZE);
    WhereMoved(t, WithPtrs(t, heap, q), heap, After(t.space[heap].cursor, ArraySize(q.blkNbr), PTR_SIZE), q);
    if q.base != 0 { NamesHeapMet(t, heap, q); }
  }

  /** The run of block allocations. */
  ghost function AllocsOf(argChk: bool, t: Table, heap: MemPool, q: Ask): Allocs
    requires heap in t.space && Positive(q)
    requires PtrsTaken(t.space[heap].cursor, q.blkNbr) <= t.space[heap].cursor.rem
  {
    SegAllocs(argChk, HeadCursor(WithPtrs(t, heap, q), heap, q), q.blkNbr, q.blkSize, q.blkAlign)
  }

  /** The blocks lie one stride apart from the first aligned address on, and take exactly that much. */
  ghost predicate BlksFrom(start: nat, q: Ask, r: Allocs)
    requires Positive(q)
  {
    && |r.blks| == q.blkNbr && r.cursor.next == start + BlksSize(start, q)
    && FollowForm(r.blks, start, q.blkSize, q.blkAlign)
  }

  /** Once the checks have passed, the allocation of the blocks completes exactly when the blocks
      truly fit what is left, whatever sizes the checks computed. */
  lemma RunDecides(argChk: bool, t: Table, heap: MemPool, q: Ask)
    requires heap in t.space && Positive(q) && InRange(q) && (argChk || Sized(t, heap, q))
    requires PtrsTaken(t.space[heap].cursor, q.blkNbr) <= t.space[heap].cursor.rem && (q.base != 0 ==> !Clashes(t, q))
    ensures var r := AllocsOf(argChk, t, heap, q);
            && SaneRun(argChk, HeadCursor(WithPtrs(t, heap, q), heap, q), q.blkNbr, q.blkSize, q.blkAlign)
            && (|r.blks| == q.blkNbr <==> BlksSize(Start(t, heap, q), q) <= Room(t, heap, q))
            && (PTR_SIZE * q.blkNbr < WORD ==> (|r.blks| == q.blkNbr <==> Suffices(t, heap, q)))
            && (|r.blks| == q.blkNbr ==> BlksFrom(Start(t, heap, q), q, r))
  {
    AfterPtrs(t, heap, heap, q);
    var u := WithPtrs(t, heap, q);
    var end := HeadInSegment(u, heap, q);
    ClosedFormIsLoop(argChk, HeadCursor(u, heap, q), end, q.blkNbr, q.blkSize, q.blkAlign);
  }

  /** What the allocation of the pointer array leaves for that of the blocks. */
  lemma PtrsLeave(argChk: bool, t: Table, heap: MemPool, pool: MemPool, q: Ask, prev: MemPool?, next: MemPool?)
    requires heap in t.space && Positive(q) && InRange(q) && (argChk || Sized(t, heap, q))
    requires PtrsTaken(t.space[heap].cursor, q.blkNbr) <= t.space[heap].cursor.rem && (q.base != 0 ==> !Clashes(t, q))
    ensures var u := WithPtrs(t, heap, q);
            && heap in u.space && Head(u, heap, pool, q) == Head(t, heap, pool, q)
            && SaneRun(argChk, HeadCursor(u, heap, q), q.blkNbr, q.blkSize, q.blkAlign)
            && (Gap(t, prev, next, q) ==> Gap(u, prev, next, q))
  {
    AfterPtrs(t, heap, pool, q);
    RunDecides(argChk, t, heap, q);
  }

  /** When the checks have passed and nothing overflows, no allocation that follows can fail, and
      the blocks lie where the checks assumed them; a request for the heap's own memory aside. */
  lemma NoLateFailure(argChk: bool, t: Table, heap: MemPool, q: Ask)
    requires heap in t.space && Positive(q) && InRange(q) && Sized(t, heap, q)
    requires PlanOf(argChk, t, heap, q).err == None && !NamesHeap(t, heap, q)
    ensures PtrsTaken(t.space[heap].cursor, q.blkNbr) <= t.space[heap].cursor.rem
    ensures var plan := PlanOf(argChk, t, heap, q);
            plan.sizeTotPool == BlksSize(plan.addrPool, q) && BlksFrom(plan.addrPool, q, AllocsOf(argChk, t, heap, q))
  {
    PlanIsVerdict(argChk, t, heap, q);
    VerdictSuffices(t, heap, q);
    RunDecides(argChk, t, heap, q);
  }

  /** What the checks pass and the allocation then cannot serve: pointer array and blocks that each
      fit the heap alone, but not together, when the request names the heap's own memory. */
  lemma LateFailureIff(argChk: bool, t: Table, heap: MemPool, q: Ask)
    requires heap in t.space && Positive(q) && Sized(t, heap, q)
    ensures var h, n := t.space[heap].cursor, PtrsSize(t.space[heap].cursor, q.blkNbr);
            PlanOf(argChk, t, heap, q).err == None && !Suffices(t, heap, q) <==>
            && NamesHeap(t, heap, q) && n <= h.rem && BlksSize(h.next, q) <= h.rem
            && n + BlksSize(h.next + n, q) > h.rem
  {
    PlanIsVerdict(argChk, t, heap, q);
    VerdictSuffices(t, heap, q);
    if NamesHeap(t, heap, q) { NamesHeapMet(t, heap, q); }
  }

  /** The blocks take more than 32 bits can say, the checks do not notice, and the wrapped size fits. */
  predicate WrapFits(start: nat, room: nat, q: Ask)
    requires Positive(q)
  {
    && BlksSize(start, q) >= WORD && Unnoticed(start, q.blkNbr, q.blkSize, q.blkAlign)
    && Wrap(BlksSize(start, q)) <= room
  }

  lemma CalcRoom(start: Word, room: nat, q: Ask)
    requires Positive(q) && room < WORD
    ensures var blks := SegCalcTotSize(true, start, q.blkNbr, q.blkSize, q.blkAlign);
            0 < blks <= room <==> BlksSize(start, q) <= room || WrapFits(start, room, q)
  {
    CalcDecides(true, start, q.blkNbr, q.blkSize, q.blkAlign);
    if BlksSize(start, q) < WORD {
      WrapSmall(BlksSize(start, q));
    } else if Unnoticed(start, q.blkNbr, q.blkSize, q.blkAlign) {
      UnnoticedSize(start, q.blkNbr, q.blkSize, q.blkAlign);
    }
  }

  lemma HeapPlanPasses(h: Cursor, end: nat, q: Ask)
    requires Positive(q) && InSegment(h, end) && PtrsPass(h, q.blkNbr) && PtrsTaken(h, q.blkNbr) <= h.rem
    ensures var n := PtrsTaken(h, q.blkNbr);
            HeapPlan(true, h, q).err == None <==>
            0 < SegCalcTotSize(true, h.next + n, q.blkNbr, q.blkSize, q.blkAlign) <= h.rem - n
  {
    var n := PtrsTaken(h, q.blkNbr);
    PtrsCalc(h, q.blkNbr);
    WrapSmall(h.next + n);
    HeapChecksPass(h.rem, n, h.next + n, SegCalcTotSize(true, h.next + n, q.blkNbr, q.blkSize, q.blkAlign));
  }

  lemma HeapChecksPass(rem: Word, ptrs: Word, addrPool: Word, blks: Word)
    requires 0 < ptrs <= rem
    ensures HeapChecks(true, rem, ptrs, addrPool, blks).err == None <==> 0 < blks <= rem - ptrs
  {
    WrapOnce(ptrs + blks);
  }

  /** What lets a request pass the checks of the checked build: nothing clashes, the pointer array is
      taken to fit, and so are the blocks, which for dedicated memory are looked for as if the
      pointer array were not taken first. */
  ghost predicate Passes(t: Table, heap: MemPool, q: Ask)
    requires heap in t.space && Positive(q)
  {
    var h := t.space[heap].cursor;
    && (q.base != 0 ==> !Clashes(t, q)) && PtrsPass(h, q.blkNbr) && PtrsTaken(h, q.blkNbr) <= h.rem
    && if q.base == 0 then BlksPass(Start(t, heap, q), Room(t, heap, q), q)
       else var c := HeadCursor(t, heap, q); BlksPass(c.next, c.rem, q)
  }

  predicate BlksPass(start: nat, room: nat, q: Ask)
    requires Positive(q)
  {
    BlksSize(start, q) <= room || WrapFits(start, room, q)
  }

  lemma HeapPlanPassesIff(h: Cursor, end: nat, q: Ask)
    requires Positive(q) && InSegment(h, end)
    ensures var n := PtrsTaken(h, q.blkNbr);
            HeapPlan(true, h, q).err == None <==>
            PtrsPass(h, q.blkNbr) && n <= h.rem && BlksPass(h.next + n, h.rem - n, q)
  {
    var n := PtrsTaken(h, q.blkNbr);
    if PtrsPass(h, q.blkNbr) && n <= h.rem {
      HeapPlanPasses(h, end, q);
      CalcRoom(h.next + n, h.rem - n, q);
    } else {
      PlanLeavesPtrs(h, q);
    }
  }

  lemma SegPlanPassesIff(h: Cursor, c: Cursor, q: Ask)
    requires Positive(q)
    ensures SegPlan(true, h, c, q).err == None <==>
            PtrsPass(h, q.blkNbr) && PtrsTaken(h, q.blkNbr) <= h.rem && BlksPass(c.next, c.rem, q)
  {
    PtrsCalc(h, q.blkNbr);
    CalcRoom(c.next, c.rem, q);
  }

  lemma PassesInHeap(t: Table, heap: MemPool, q: Ask)
    requires heap in t.space && Positive(q) && q.base == 0
    ensures var h, n := t.space[heap].cursor, PtrsTaken(t.space[heap].cursor, q.blkNbr);
            Passes(t, heap, q) <==> PtrsPass(h, q.blkNbr) && n <= h.rem && BlksPass(h.next + n, h.rem - n, q)
  {
  }

  lemma HeapPassesIff(t: Table, heap: MemPool, q: Ask)
    requires heap in t.space && Positive(q) && q.base == 0
    ensures HeapPlan(true, t.space[heap].cursor, q).err == None <==> Passes(t, heap, q)
  {
    var end := HeadInSegment(t, heap, q);
    HeapPlanPassesIff(t.space[heap].cursor, end, q);
    PassesInHeap(t, heap, q);
  }

  lemma SegPassesIff(t: Table, heap: MemPool, q: Ask)
    requires heap in t.space && Positive(q) && q.base != 0 && !Clashes(t, q)
    ensures SegPlan(true, t.space[heap].cursor, HeadCursor(t, heap, q), q).err == None <==> Passes(t, heap, q)
  {
    SegPlanPassesIff(t.space[heap].cursor, HeadCursor(t, heap, q), q);
  }

  lemma PassesIff(t: Table, heap: MemPool, q: Ask)
    requires heap in t.space && Positive(q) && InRange(q)
    ensures PlanOf(true, t, heap, q).err == None <==> Passes(t, heap, q)
  {
    if q.base == 0 {
      HeapPassesIff(t, heap, q);
    } else if !Clashes(t, q) {
      SegPassesIff(t, heap, q);
    }
  }

  /** A number of blocks whose array neither fits in 32 bits nor wraps unnoticed is rejected. */
  lemma PtrsRejected(t: Table, heap: MemPool, q: Ask)
    requires heap in t.space && Positive(q) && !PtrsPass(t.space[heap].cursor, q.blkNbr)
    requires q.base != 0 ==> !Clashes(t, q)
    ensures PlanOf(true, t, heap, q) == Fail(HeapOvf, 0)
  {
    PtrsCalc(t.space[heap].cursor, q.blkNbr);
  }

  /** What the checks of the checked build decide and report for every pool in the heap. The blocks
      are looked for behind the pointer array, and every size is taken modulo 2^32. */
  lemma HeapPlanDecides(h: Cursor, end: nat, q: Ask)
    requires Positive(q) && InSegment(h, end)
    ensures var n := PtrsTaken(h, q.blkNbr);
            var at := Wrap(h.next + n);
            var b := Wrap(BlksSize(at, q));
            HeapPlan(true, h, q) ==
            if !PtrsPass(h, q.blkNbr) || Rejected(at, q.blkNbr, q.blkSize, q.blkAlign) || n + b >= WORD then
              Plan(HeapOvf, 0, 0, 0)
            else if n + b > h.rem then Plan(HeapEmpty, n + b - h.rem, 0, 0)
            else Plan(None, 0, h.next + n, b)
  {
    var n := PtrsTaken(h, q.blkNbr);
    PtrsCalc(h, q.blkNbr);
    if PtrsPass(h, q.blkNbr) {
      var at := Wrap(h.next + n);
      BlksCalc(at, q);
      if n <= h.rem { WrapSmall(h.next + n); }
      HeapChecksDecide(h.rem, n, at, SegCalcTotSize(true, at, q.blkNbr, q.blkSize, q.blkAlign));
    }
  }

  lemma HeapChecksDecide(rem: Word, ptrs: Word, addrPool: Word, blks: Word)
    requires 0 < ptrs
    ensures HeapChecks(true, rem, ptrs, addrPool, blks) ==
            if blks == 0 || ptrs + blks >= WORD then Plan(HeapOvf, 0, 0, 0)
            else if ptrs + blks > rem then Plan(HeapEmpty, ptrs + blks - rem, 0, 0)
            else Plan(None, 0, addrPool, blks)
  {
    WrapOnce(ptrs + blks);
  }

  /** The size that the checked build computes for the blocks. */
  lemma BlksCalc(start: Word, q: Ask)
    requires Positive(q)
    ensures var blks := SegCalcTotSize(true, start, q.blkNbr, q.blkSize, q.blkAlign);
            && (Rejected(start, q.blkNbr, q.blkSize, q.blkAlign) ==> blks == 0)
            && (!Rejected(start, q.blkNbr, q.blkSize, q.blkAlign) ==> 0 < blks == Wrap(BlksSize(start, q)))
  {
    CalcDecides(true, start, q.blkNbr, q.blkSize, q.blkAlign);
  }

  /** The same for a pool in dedicated memory. */
  lemma SegPlanDecides(h: Cursor, c: Cursor, q: Ask)
    requires Positive(q)
    ensures var n, b := PtrsTaken(h, q.blkNbr), Wrap(BlksSize(c.next, q));
            SegPlan(true, h, c, q) ==
            if !PtrsPass(h, q.blkNbr) then Plan(HeapOvf, 0, 0, 0)
            else if n > h.rem then Plan(HeapEmpty, n - h.rem, 0, 0)
            else if Rejected(c.next, q.blkNbr, q.blkSize, q.blkAlign) then Plan(SegOvf, 0, 0, 0)
            else if b > c.rem then Plan(SegEmpty, b - c.rem, 0, 0)
            else Plan(None, 0, c.next, b)
  {
    PtrsCalc(h, q.blkNbr);
    BlksCalc(c.next, q);
  }

  /** What is reported before the table is looked at. */
  predicate ArgumentErr(err: LibErr) {
    err != None && err != InvalidSegOverlap && err != HeapOvf && err != HeapEmpty && err != SegOvf && err != SegEmpty
  }

  lemma ChecksErrs(argChk: bool, rem: Word, seg: Cursor, ptrs: Word, addrPool: Word, blks: Word)
    ensures var err := HeapChecks(argChk, rem, ptrs, addrPool, blks).err; !ArgumentErr(err) && err != InvalidSegOverlap
    ensures var err := SegChecks(argChk, rem, seg, ptrs, blks).err; !ArgumentErr(err) && err != InvalidSegOverlap
  {
  }

  /** The checks report none of these; an overlap is reported exactly for a clash. */
  lemma PlanErrs(argChk: bool, t: Table, heap: MemPool, q: Ask)
    requires heap in t.space && q.blkAlign > 0
    ensures var err := PlanOf(argChk, t, heap, q).err;
            !ArgumentErr(err) && (err == InvalidSegOverlap <==> q.base != 0 && Clashes(t, q))
  {
    var h, c := t.space[heap].cursor, HeadCursor(t, heap, q);
    var ptrs := SegCalcTotSize(argChk, h.next, q.blkNbr, PTR_SIZE, PTR_SIZE);
    var addrPool := if q.base == 0 then Wrap(h.next + ptrs) else c.next;
    ChecksErrs(argChk, h.rem, c, ptrs, addrPool, SegCalcTotSize(argChk, addrPool, q.blkNbr, q.blkSize, q.blkAlign));
  }

  /** The checks of the checked build pass, and then some block cannot be allocated. */
  ghost predicate FailsLate(t: Table, heap: MemPool, q: Ask)
    requires heap in t.space && Positive(q)
  {
    PlanOf(true, t, heap, q).err == None &&
    (PlanLeavesRoom(true, t, heap, q); |AllocsOf(true, t, heap, q).blks| < q.blkNbr)
  }

  lemma FailsLateIs(t: Table, heap: MemPool, q: Ask)
    requires heap in t.space && Positive(q) && InRange(q)
    ensures FailsLate(t, heap, q) <==> Passes(t, heap, q) && BlksSize(Start(t, heap, q), q) > Room(t, heap, q)
    ensures PTR_SIZE * q.blkNbr < WORD ==>
              (FailsLate(t, heap, q) <==> PlanOf(true, t, heap, q).err == None && !Suffices(t, heap, q))
  {
    PassesIff(t, heap, q);
    if Passes(t, heap, q) { RunDecides(true, t, heap, q); }
  }

  lemma NamedFailsLate(t: Table, heap: MemPool, q: Ask)
    requires heap in t.space && Positive(q) && InRange(q) && NamesHeap(t, heap, q)
    ensures var h, n := t.space[heap].cursor, PtrsTaken(t.space[heap].cursor, q.blkNbr);
            FailsLate(t, heap, q) <==>
            && PtrsPass(h, q.blkNbr) && n <= h.rem
            && BlksPass(h.next, h.rem, q) && n + BlksSize(h.next + n, q) > h.rem
  {
    FailsLateIs(t, heap, q);
    NamesHeapMet(t, heap, q);
  }

  lemma OtherFailsLate(t: Table, heap: MemPool, q: Ask)
    requires heap in t.space && Positive(q) && InRange(q) && !NamesHeap(t, heap, q)
    ensures var h := t.space[heap].cursor;
            FailsLate(t, heap, q) <==>
            && (q.base != 0 ==> !Clashes(t, q)) && PtrsPass(h, q.blkNbr) && PtrsTaken(h, q.blkNbr) <= h.rem
            && WrapFits(Start(t, heap, q), Room(t, heap, q), q)
  {
    FailsLateIs(t, heap, q);
  }

  /** For every request: a creation in the checked build fails late exactly when nothing clashes, the
      pointer array is taken to fit, and the blocks take more than 32 bits can say, unnoticed, in a
      wrapped size that fits; or, when the request names the heap's own memory, when they fit
      without the pointer array, be it only by such a wrap, and do not fit behind it. */
  lemma FailsLateIff(t: Table, heap: MemPool, q: Ask)
    requires heap in t.space && Positive(q) && InRange(q)
    ensures var h, n := t.space[heap].cursor, PtrsTaken(t.space[heap].cursor, q.blkNbr);
            FailsLate(t, heap, q) <==>
            && (q.base != 0 ==> !Clashes(t, q)) && PtrsPass(h, q.blkNbr) && n <= h.rem
            && if NamesHeap(t, heap, q) then BlksPass(h.next, h.rem, q) && n + BlksSize(h.next + n, q) > h.rem
               else WrapFits(Start(t, heap, q), Room(t, heap, q), q)
    ensures PTR_SIZE * q.blkNbr < WORD ==>
              (FailsLate(t, heap, q) <==> PlanOf(true, t, heap, q).err == None && !Suffices(t, heap, q))
  {
    FailsLateIs(t, heap, q);
    if NamesHeap(t, heap, q) {
      NamesHeapMet(t, heap, q);
      NamedFailsLate(t, heap, q);
    } else {
      OtherFailsLate(t, heap, q);
    }
  }

  /** The checks of the checked build pass, and the loop stores more pointers than the array that was
      allocated can hold. */
  ghost predicate Overruns(t: Table, heap: MemPool, q: Ask)
    requires heap in t.space && Positive(q)
  {
    PlanOf(true, t, heap, q).err == None &&
    (PlanLeavesRoom(true, t, heap, q); PTR_SIZE * |AllocsOf(true, t, heap, q).blks| > ArraySize(q.blkNbr))
  }

  /** How many pointers an array of that size holds. */
  lemma ArrayHolds(blkNbr: Word) returns (k: nat)
    requires PTR_SIZE * blkNbr >= WORD
    ensures ArraySize(blkNbr) == PTR_SIZE * k && k < blkNbr && k == ArraySize(blkNbr) / PTR_SIZE
  {
    var j := PTR_SIZE * blkNbr / WORD;
    assert PTR_SIZE * blkNbr == j * WORD + ArraySize(blkNbr);
    k := blkNbr - j * 0x4000_0000;
  }

  /** The array is overrun exactly when its size wraps unnoticed and one block more than the wrapped
      array has room for can be allocated. */
  lemma OverrunsIff(t: Table, heap: MemPool, q: Ask)
    requires heap in t.space && Positive(q) && InRange(q)
    ensures Overruns(t, heap, q) <==>
            && Passes(t, heap, q) && PTR_SIZE * q.blkNbr >= WORD
            && TotSize(Start(t, heap, q), ArraySize(q.blkNbr) / PTR_SIZE + 1, q.blkSize, q.blkAlign) <= Room(t, heap, q)
  {
    PassesIff(t, heap, q);
    if Passes(t, heap, q) && PTR_SIZE * q.blkNbr >= WORD {
      var k := ArrayHolds(q.blkNbr);
      var c := HeadCursor(WithPtrs(t, heap, q), heap, q);
      AfterPtrs(t, heap, heap, q);
      var end := HeadInSegment(WithPtrs(t, heap, q), heap, q);
      RunPrefix(true, c, k + 1, q.blkNbr, q.blkSize, q.blkAlign);
      ClosedFormIsLoop(true, c, end, k + 1, q.blkSize, q.blkAlign);
    }
  }

  /** From t to u the pool was put in the table, as a segment of its own or behind the head of another. */
  ghost predicate Enrolled(t: Table, u: Table, heap: MemPool, pool: MemPool, q: Ask) {
    var seg := Head(t, heap, pool, q);
    if seg == pool then
      Where(t, q) <= |t.segs| && u.segs == Insert(t.segs, Where(t, q), pool) && u.cols == t.cols[pool := []]
    else
      seg in t.cols && u.segs == t.segs && u.cols == t.cols[seg := [pool] + t.cols[seg]]
  }

  /** From t to u the blocks of r were taken from the segment of the pool, whose cursor r leaves
      behind, and the pool was enrolled; no other segment changed. */
  ghost predicate Furnished(t: Table, u: Table, heap: MemPool, pool: MemPool, q: Ask, r: Allocs) {
    var seg := Head(t, heap, pool, q);
    && Enrolled(t, u, heap, pool, q)
    && u.regions == t.regions + BlkRegions(seg, r.blks, q.blkSize, q.blkAlign)
    && if seg == pool then u.space == t.space[pool := Space(q.base, q.memSize, r.cursor)]
       else seg in t.space && u.space == Moved(t.space, seg, r.cursor)
  }

  /** From t to u the blocks of r were taken, but no pool was made of them. */
  ghost predicate Abandoned(t: Table, u: Table, heap: MemPool, pool: MemPool, q: Ask, r: Allocs) {
    var seg := Head(t, heap, pool, q);
    if seg == pool then u == t else seg in t.space && u == RanFrom(t, seg, r, q.blkSize, q.blkAlign)
  }

  /** From t to u the blocks of r were taken, and the pool was enrolled if they are all there. */
  ghost predicate Ran(t: Table, u: Table, heap: MemPool, pool: MemPool, q: Ask, r: Allocs) {
    if |r.blks| == q.blkNbr then Furnished(t, u, heap, pool, q, r) else Abandoned(t, u, heap, pool, q, r)
  }

  /** The table after that for a segment of the table. */
  ghost function InSegmentOf(t: AnyTable, pool: MemPool, seg: MemPool, q: Ask, r: Allocs): AnyTable
    requires seg in t.space && Hooked(t, seg)
  {
    var u := RanFrom(t, seg, r, q.blkSize, q.blkAlign);
    if |r.blks| == q.blkNbr then WithPool(u, pool, seg) else u
  }

  lemma RanInSegment(t: Table, u: Table, heap: MemPool, pool: MemPool, q: Ask, r: Allocs)
    requires heap in t.space && pool !in t.space
    requires var seg := Head(t, heap, pool, q);
             seg != pool && seg in t.space && Hooked(t, seg) && u == InSegmentOf(t, pool, seg, q, r)
    ensures Ran(t, u, heap, pool, q, r)
  {
  }

  /** What Mem_PoolCreate reports when the blocks run out after all. */
  function LateShortfall(argChk: bool, seg: Cursor, blkRem: Word, q: Ask): Word
    requires q.blkAlign > 0
  {
    var sizeTot := SegCalcTotSize(argChk, seg.next, blkRem, q.blkSize, q.blkAlign);
    if sizeTot > seg.rem then sizeTot - seg.rem else sizeTot
  }

  /** What it reports when the m blocks that are left take more than remains: what is missing, when
      that can be said in 32 bits, and otherwise what the wrapped size makes of it. */
  lemma LateShortfallIs(argChk: bool, c: Cursor, m: Word, q: Ask)
    requires Positive(q) && m > 0 && TotSize(c.next, m, q.blkSize, q.blkAlign) > c.rem
    requires argChk || TotSize(c.next, m, q.blkSize, q.blkAlign) < WORD
    ensures var size, w := TotSize(c.next, m, q.blkSize, q.blkAlign), Wrap(TotSize(c.next, m, q.blkSize, q.blkAlign));
            LateShortfall(argChk, c, m, q) ==
            if size < WORD then size - c.rem
            else if Rejected(c.next, m, q.blkSize, q.blkAlign) then 0
            else if w > c.rem then w - c.rem
            else w
  {
    CalcDecides(argChk, c.next, m, q.blkSize, q.blkAlign);
    var size := TotSize(c.next, m, q.blkSize, q.blkAlign);
    if size < WORD { WrapSmall(size); }
  }

  /** In the first case it is the least extra space with which the blocks that are left would fit. */
  lemma LateShortfallIsLeast(argChk: bool, c: Cursor, end: nat, m: Word, q: Ask, extra: nat)
    requires Positive(q) && m > 0 && c.rem < TotSize(c.next, m, q.blkSize, q.blkAlign) < WORD
    requires InSegment(c, end) && end + extra < WORD
    ensures |SegAllocs(argChk, Cursor(c.next, c.rem + extra), m, q.blkSize, q.blkAlign).blks| == m
            <==> extra >= LateShortfall(argChk, c, m, q)
  {
    LateShortfallIs(argChk, c, m, q);
    ClosedFormIsLoop(argChk, Cursor(c.next, c.rem + extra), end + extra, m, q.blkSize, q.blkAlign);
  }

  /** After a late failure the blocks that are left do take more than remains. */
  lemma LateRest(argChk: bool, t: Table, heap: MemPool, q: Ask)
    requires heap in t.space && Positive(q) && InRange(q) && (argChk || Sized(t, heap, q))
    requires PtrsTaken(t.space[heap].cursor, q.blkNbr) <= t.space[heap].cursor.rem && (q.base != 0 ==> !Clashes(t, q))
    requires |AllocsOf(argChk, t, heap, q).blks| < q.blkNbr
    ensures var r := AllocsOf(argChk, t, heap, q);
            TotSize(r.cursor.next, q.blkNbr - |r.blks|, q.blkSize, q.blkAlign) > r.cursor.rem
  {
    RunDecides(argChk, t, heap, q);
    var u := WithPtrs(t, heap, q);
    var end := HeadInSegment(u, heap, q);
    RestTooLarge(argChk, HeadCursor(u, heap, q), end, q.blkNbr, q.blkSize, q.blkAlign);
  }

  /** The fields that Mem_PoolCreate configures. */
  predicate Configured(pool: MemPool, q: Ask, plan: Plan)
    reads pool
  {
    && pool.typ == TypePool && pool.poolPtrs != null && pool.blkIx == pool.blkNbr == pool.poolPtrs.Length == q.blkNbr
    && pool.poolAddrStart == plan.addrPool && pool.poolAddrEnd == Wrap(plan.addrPool + plan.sizeTotPool - 1)
    && pool.poolSize == plan.sizeTotPool && pool.blkSize == q.blkSize && pool.blkAlign == q.blkAlign
  }

  /** From the table with the pointer array to u: the run of block allocations, and what came of it. */
  ghost predicate Finished(argChk: bool, t: Table, u: Table, heap: MemPool, pool: MemPool, q: Ask,
                           octetsReqd: Word, err: LibErr, r: Allocs)
    requires heap in t.space && Positive(q)
  {
    && r == SegAllocs(argChk, HeadCursor(t, heap, q), q.blkNbr, q.blkSize, q.blkAlign)
    && Ran(t, u, heap, pool, q, r)
    && err == (if |r.blks| == q.blkNbr then None else SegEmpty)
    && octetsReqd == if |r.blks| == q.blkNbr then 0 else LateShortfall(argChk, r.cursor, q.blkNbr - |r.blks|, q)
  }

  /** The whole outcome of a creation: when the checks fail, their error, and nothing has changed;
      otherwise the pointer array has been taken, and then the blocks. */
  ghost predicate Decided(argChk: bool, t: Table, u: Table, heap: MemPool, pool: MemPool, q: Ask,
                          octetsReqd: Word, err: LibErr, r: Allocs)
    requires heap in t.space && Positive(q) && (argChk || Sized(t, heap, q))
  {
    var plan := PlanOf(argChk, t, heap, q);
    if plan.err != None then err == plan.err && octetsReqd == plan.octetsReqd && u == t
    else
      PlanLeavesRoom(argChk, t, heap, q);
      Finished(argChk, WithPtrs(t, heap, q), u, heap, pool, q, octetsReqd, err, r)
  }

  /** It does not end with an argument error, and with an overlap exactly for a clash. */
  lemma DecidedErrs(argChk: bool, t: Table, u: Table, heap: MemPool, pool: MemPool, q: Ask,
                    octetsReqd: Word, err: LibErr, r: Allocs)
    requires heap in t.space && Positive(q) && (argChk || Sized(t, heap, q))
    requires Decided(argChk, t, u, heap, pool, q, octetsReqd, err, r)
    ensures err == InvalidSegOverlap <==> q.base != 0 && Clashes(t, q)
    ensures !ArgumentErr(err)
  {
    PlanErrs(argChk, t, heap, q);
  }

  /** In the checked build for every request that does not overrun its pointer array, in the
      unchecked one when the sizes fit in 32 bits: a creation succeeds exactly when pointer array and
      blocks truly fit and nothing clashes, and its blocks then lie one stride apart behind whatever
      was taken before. */
  lemma CreatesIff(argChk: bool, t: Table, u: Table, heap: MemPool, pool: MemPool, q: Ask,
                   octetsReqd: Word, err: LibErr, r: Allocs)
    requires heap in t.space && Positive(q) && InRange(q)
    requires if argChk then !Overruns(t, heap, q) else Sized(t, heap, q)
    requires Decided(argChk, t, u, heap, pool, q, octetsReqd, err, r)
    ensures err == None <==> Suffices(t, heap, q)
    ensures err == None ==> PlanOf(argChk, t, heap, q).err == None && BlksFrom(Start(t, heap, q), q, r) && octetsReqd == 0
    ensures argChk && FailsLate(t, heap, q) ==> err == SegEmpty && Abandoned(WithPtrs(t, heap, q), u, heap, pool, q, r)
  {
    if PlanOf(argChk, t, heap, q).err == None {
      PlanLeavesRoom(argChk, t, heap, q);
      RunDecides(argChk, t, heap, q);
      if PTR_SIZE * q.blkNbr >= WORD { var k := ArrayHolds(q.blkNbr); }
    } else if Suffices(t, heap, q) {
      SufficesSized(t, heap, q);
      PlanIsVerdict(argChk, t, heap, q);
      VerdictSuffices(t, heap, q);
      assert false;
    }
  }

  lemma CreationFurnished(argChk: bool, t: Table, u: Table, heap: MemPool, pool: MemPool, q: Ask,
                          octetsReqd: Word, r: Allocs)
    requires heap in t.space && Positive(q) && InRange(q)
    requires if argChk then !Overruns(t, heap, q) else Sized(t, heap, q)
    requires Decided(argChk, t, u, heap, pool, q, octetsReqd, None, r)
    ensures PtrsTaken(t.space[heap].cursor, q.blkNbr) <= t.space[heap].cursor.rem
    ensures Furnished(WithPtrs(t, heap, q), u, heap, pool, q, r) && BlksFrom(Start(t, heap, q), q, r)
  {
    CreatesIff(argChk, t, u, heap, pool, q, octetsReqd, None, r);
    PlanLeavesRoom(argChk, t, heap, q);
  }

  lemma PtrsMove(t: Table, heap: MemPool, pool: MemPool, q: Ask, s: MemPool)
    requires heap in t.space && Positive(q) && PtrsTaken(t.space[heap].cursor, q.blkNbr) <= t.space[heap].cursor.rem
    ensures var v := WithPtrs(t, heap, q);
            && Head(v, heap, pool, q) == Head(t, heap, pool, q) && (s in v.space <==> s in t.space)
            && (s in t.space ==>
                  && v.space[s].addr == t.space[s].addr && v.space[s].size == t.space[s].size
                  && v.space[s].cursor.next ==
                     t.space[s].cursor.next + if s == heap then PtrsTaken(t.space[s].cursor, q.blkNbr) else 0)
  {
    AfterPtrs(t, heap, pool, q);
  }

  lemma BlksMove(v: Table, u: Table, heap: MemPool, pool: MemPool, q: Ask, r: Allocs, s: MemPool)
    requires heap in v.space && pool !in v.space && Furnished(v, u, heap, pool, q, r)
    ensures s in u.space <==> s in v.space || s == Head(v, heap, pool, q)
    ensures s in v.space ==> u.space[s].addr == v.space[s].addr && u.space[s].size == v.space[s].size
    ensures s == pool && s in u.space ==> u.space[s].addr == q.base && u.space[s].size == q.memSize
    ensures s in u.space ==>
              u.space[s].cursor == if s == Head(v, heap, pool, q) then r.cursor else v.space[s].cursor
  {
  }

  /** A creation moves the cursor of the heap behind the pointer array, and that of the segment with
      the blocks behind the last of these; every other segment stays as it was. */
  lemma CreationMoves(argChk: bool, t: Table, u: Table, heap: MemPool, pool: MemPool, q: Ask,
                      octetsReqd: Word, r: Allocs, s: MemPool)
    requires heap in t.space && pool !in t.space && Positive(q) && InRange(q)
    requires if argChk then !Overruns(t, heap, q) else Sized(t, heap, q)
    requires Decided(argChk, t, u, heap, pool, q, octetsReqd, None, r)
    ensures s in u.space <==> s in t.space || s == Head(t, heap, pool, q)
    ensures s in t.space ==> u.space[s].addr == t.space[s].addr && u.space[s].size == t.space[s].size
    ensures s == pool && s in u.space ==> u.space[s].addr == q.base && u.space[s].size == q.memSize
    ensures s in u.space ==>
              u.space[s].cursor.next ==
              if s == Head(t, heap, pool, q) then Start(t, heap, q) + BlksSize(Start(t, heap, q), q)
              else if s == heap then t.space[s].cursor.next + PtrsTaken(t.space[s].cursor, q.blkNbr)
              else t.space[s].cursor.next
  {
    CreationFurnished(argChk, t, u, heap, pool, q, octetsReqd, r);
    PtrsMove(t, heap, pool, q, s);
    BlksMove(WithPtrs(t, heap, q), u, heap, pool, q, r, s);
  }

  lemma PtrsRegion(t: Table, heap: MemPool, pool: MemPool, q: Ask)
    requires heap in t.space && Positive(q) && PtrsTaken(t.space[heap].cursor, q.blkNbr) <= t.space[heap].cursor.rem
    ensures var v, h := WithPtrs(t, heap, q), t.space[heap].cursor;
            && Head(v, heap, pool, q) == Head(t, heap, pool, q)
            && v.regions == t.regions + [Placed(heap, Region(h.next + Pad(h.next, 4), ArraySize(q.blkNbr), 4))]
  {
    AfterPtrs(t, heap, pool, q);
  }

  /** It hands out the pointer array from the heap, and then every block from its segment. */
  lemma CreationRegions(argChk: bool, t: Table, u: Table, heap: MemPool, pool: MemPool, q: Ask,
                        octetsReqd: Word, r: Allocs)
    requires heap in t.space && pool !in t.space && Positive(q) && InRange(q)
    requires if argChk then !Overruns(t, heap, q) else Sized(t, heap, q)
    requires Decided(argChk, t, u, heap, pool, q, octetsReqd, None, r)
    ensures var h := t.space[heap].cursor;
            u.regions == t.regions + [Placed(heap, Region(h.next + Pad(h.next, 4), ArraySize(q.blkNbr), 4))]
                         + BlkRegions(Head(t, heap, pool, q), r.blks, q.blkSize, q.blkAlign)
  {
    CreationFurnished(argChk, t, u, heap, pool, q, octetsReqd, r);
    PtrsRegion(t, heap, pool, q);
  }

  /** It adds the pool as a segment with no pools, or in front of the pools of its segment. */
  lemma CreationLinks(argChk: bool, t: Table, u: Table, heap: MemPool, pool: MemPool, q: Ask,
                      octetsReqd: Word, r: Allocs)
    requires heap in t.space && pool !in t.space && Positive(q) && InRange(q)
    requires if argChk then !Overruns(t, heap, q) else Sized(t, heap, q)
    requires Decided(argChk, t, u, heap, pool, q, octetsReqd, None, r)
    ensures var seg := Head(t, heap, pool, q);
            if seg == pool then pool in u.segs && u.cols == t.cols[pool := []] && |u.segs| == |t.segs| + 1
            else seg in t.cols && u.segs == t.segs && u.cols == t.cols[seg := [pool] + t.cols[seg]]
  {
    CreationFurnished(argChk, t, u, heap, pool, q, octetsReqd, r);
    AfterPtrs(t, heap, pool, q);
    var seg, at := Head(t, heap, pool, q), Where(t, q);
    if seg == pool { assert u.segs[at] == pool; }
  }

  /** What a creation reports that fails late: the blocks that are left take more than remains, and
      the octets are those of LateShortfallIs. */
  lemma LateReport(argChk: bool, t: Table, u: Table, heap: MemPool, pool: MemPool, q: Ask,
                   octetsReqd: Word, err: LibErr, r: Allocs)
    requires heap in t.space && Positive(q) && InRange(q) && (argChk || Sized(t, heap, q))
    requires Decided(argChk, t, u, heap, pool, q, octetsReqd, err, r)
    requires PlanOf(argChk, t, heap, q).err == None && err != None
    ensures err == SegEmpty && |r.blks| < q.blkNbr
    ensures var size := TotSize(r.cursor.next, q.blkNbr - |r.blks|, q.blkSize, q.blkAlign);
            && size > r.cursor.rem && (size < WORD ==> octetsReqd == size - r.cursor.rem)
            && octetsReqd == LateShortfall(argChk, r.cursor, q.blkNbr - |r.blks|, q)
  {
    PlanLeavesRoom(argChk, t, heap, q);
    LateRest(argChk, t, heap, q);
    var m := q.blkNbr - |r.blks|;
    if TotSize(r.cursor.next, m, q.blkSize, q.blkAlign) < WORD { LateShortfallIs(argChk, r.cursor, m, q); }
  }

  /** When its sizes fit in 32 bits and it does not name the heap's own memory, a request is decided
      as those sizes call for, and changes nothing when it fails. */
  lemma DecidedExactly(argChk: bool, t: Table, u: Table, heap: MemPool, pool: MemPool, q: Ask,
                       octetsReqd: Word, err: LibErr, r: Allocs)
    requires heap in t.space && Positive(q) && InRange(q) && Sized(t, heap, q)
    requires !NamesHeap(t, heap, q) && Decided(argChk, t, u, heap, pool, q, octetsReqd, err, r)
    ensures var verdict := Verdict(t, heap, q);
            && err == verdict.err && octetsReqd == verdict.octetsReqd
            && if err == None then BlksFrom(verdict.addrPool, q, r) else u == t
    ensures var h, blks := t.space[heap].cursor, BlksSize(Start(t, heap, q), q);
            var n := PtrsSize(h, q.blkNbr);
            && (err == HeapEmpty ==> octetsReqd == (if q.base == 0 then n + blks else n) - h.rem > 0)
            && (err == SegEmpty ==> octetsReqd == blks - HeadCursor(t, heap, q).rem > 0)
            && (err != HeapEmpty && err != SegEmpty ==> octetsReqd == 0)
  {
    PlanIsVerdict(argChk, t, heap, q);
    VerdictSuffices(t, heap, q);
    CreatesIff(argChk, t, u, heap, pool, q, octetsReqd, err, r);
    if Suffices(t, heap, q) { PlanInSegment(argChk, t, heap, q); }
  }

  /** Every object of the table names the head of a segment of the table. */
  lemma HeadListed(t: Table, p: MemPool)
    requires p in t.links
    ensures var h := t.links[p].segHead; h != null && h in t.segs && h in t.space && Sound(t.space[h])
  {
    assert Listed(t.segs, t.cols, p);
    var h: MemPool :| h in t.cols && (h == p || p in t.cols[h]);
    assert Column(t.links, h, t.cols[h]);
    var i :| 0 <= i < |t.segs| && t.segs[i] == h;
    assert Sound(t.space[t.segs[i]]);
  }

  /** The blocks that the checks looked for lie below the top of the address space. */
  lemma PlanInSegment(argChk: bool, t: Table, heap: MemPool, q: Ask)
    requires heap in t.space && Positive(q) && InRange(q) && Suffices(t, heap, q)
    ensures var plan := PlanOf(argChk, t, heap, q);
            && 0 < plan.addrPool && plan.sizeTotPool == BlksSize(plan.addrPool, q)
            && plan.addrPool + plan.sizeTotPool < WORD
            && (!NamesHeap(t, heap, q) ==> plan.addrPool == Start(t, heap, q))
            && (NamesHeap(t, heap, q) ==> plan.addrPool == t.space[heap].cursor.next)
  {
    SufficesSized(t, heap, q);
    PlanIsVerdict(argChk, t, heap, q);
    VerdictSuffices(t, heap, q);
    var end := HeadInSegment(t, heap, q);
    var last := HeadInSegment(t, heap, q.(base := 0));
    if NamesHeap(t, heap, q) { NamesHeapMet(t, heap, q); }
  }

  /** Below the top of memory an aligned block and its padding stay within 32 bits. */
  lemma StrideFits(addr: nat, q: Ask)
    requires Positive(q) && 0 < addr && addr + BlksSize(addr, q) < WORD
    ensures Stride(q.blkSize, q.blkAlign) < WORD
  {
    var first := addr + Pad(addr, q.blkAlign);
    ProductMonotone(Stride(q.blkSize, q.blkAlign), 0, q.blkNbr - 1);
    assert first < q.blkAlign ==> first % q.blkAlign == first by {
      if first < q.blkAlign { ModUnique(first, q.blkAlign, 0, first); }
    }
  }

  /** The layout that the pool records. */
  function LayoutOf(plan: Plan, q: Ask): Layout {
    Layout(plan.addrPool, Wrap(plan.addrPool + plan.sizeTotPool - 1), q.blkSize, q.blkAlign)
  }

  lemma LaidOutFrom(plan: Plan, q: Ask)
    requires Positive(q) && 0 < plan.addrPool && plan.sizeTotPool == BlksSize(plan.addrPool, q)
    requires plan.addrPool + plan.sizeTotPool < WORD
    ensures LaidOut(LayoutOf(plan, q), q.blkNbr)
  {
    StrideFits(plan.addrPool, q);
    WrapSmall(plan.addrPool + plan.sizeTotPool - 1);
  }

  lemma PlanLaidOut(argChk: bool, t: Table, heap: MemPool, q: Ask)
    requires heap in t.space && Positive(q) && InRange(q) && Suffices(t, heap, q)
    ensures LaidOut(LayoutOf(PlanOf(argChk, t, heap, q), q), q.blkNbr) && PlanOf(argChk, t, heap, q).addrPool > 0
    ensures PlanOf(argChk, t, heap, q).sizeTotPool == BlksSize(PlanOf(argChk, t, heap, q).addrPool, q)
  {
    PlanInSegment(argChk, t, heap, q);
    LaidOutFrom(PlanOf(argChk, t, heap, q), q);
  }

  /** A created pool is laid out for the validator, as getting and freeing its blocks require. */
  lemma CreatedPool(argChk: bool, t: Table, heap: MemPool, pool: MemPool, q: Ask)
    requires heap in t.space && Positive(q) && InRange(q) && Suffices(t, heap, q)
    requires Configured(pool, q, PlanOf(argChk, t, heap, q))
    ensures pool.Shaped() && LaidOut(pool.AsLayout(), q.blkNbr) && pool.poolAddrStart > 0
    ensures pool.AsLayout() == LayoutOf(PlanOf(argChk, t, heap, q), q)
    ensures pool.poolSize == BlksSize(pool.poolAddrStart, q) == pool.poolAddrEnd + 1 - pool.poolAddrStart
  {
    PlanLaidOut(argChk, t, heap, q);
  }

  /** The request names the heap's own memory, and the pointer array is longer than the padding in
      front of the blocks. */
  ghost predicate Misplaced(t: Table, heap: MemPool, q: Ask)
    requires heap in t.space && q.blkAlign > 0
  {
    NamesHeap(t, heap, q) && PtrsSize(t.space[heap].cursor, q.blkNbr) > Pad(t.space[heap].cursor.next, q.blkAlign)
  }

  /** The blocks lie where the pool has its start recorded unless they are misplaced. */
  lemma RecordedStart(argChk: bool, t: Table, heap: MemPool, q: Ask, r: Allocs)
    requires heap in t.space && Positive(q) && InRange(q) && Suffices(t, heap, q)
    requires BlksFrom(Start(t, heap, q), q, r)
    ensures FollowForm(r.blks, PlanOf(argChk, t, heap, q).addrPool, q.blkSize, q.blkAlign) <==> !Misplaced(t, heap, q)
  {
    PlanInSegment(argChk, t, heap, q);
    if NamesHeap(t, heap, q) {
      var h := t.space[heap].cursor;
      FormLater(r.blks, h.next, PtrsSize(h, q.blkNbr), q.blkSize, q.blkAlign);
    }
  }

  /** A created pool is the pool with which every run of gets and frees begins, unless its blocks
      are misplaced. */
  lemma CreatedPoolIsRun(argChk: bool, t: Table, heap: MemPool, pool: MemPool, q: Ask, r: Allocs)
    requires heap in t.space && Positive(q) && InRange(q) && Suffices(t, heap, q)
    requires BlksFrom(Start(t, heap, q), q, r)
    requires Configured(pool, q, PlanOf(argChk, t, heap, q)) && pool.poolPtrs[..] == r.blks
    ensures LaidOut(pool.AsLayout(), q.blkNbr) && pool.poolAddrStart > 0
    ensures pool.AsPool() == Run(pool.AsLayout(), q.blkNbr, []).pool <==> !Misplaced(t, heap, q)
  {
    CreatedPool(argChk, t, heap, pool, q);
    RecordedStart(argChk, t, heap, q, r);
    StartsRun(pool.AsLayout(), r.blks);
  }

  /** The unchecked build never reads where a pool starts: there every created pool is one with which
      runs of gets and frees begin, misplaced or not. */
  lemma CreatedPoolUnchecked(pool: MemPool, q: Ask, start: nat, r: Allocs)
    requires Positive(q) && BlksFrom(start, q, r)
    requires pool.poolPtrs != null && pool.poolPtrs[..] == r.blks && pool.blkIx == q.blkNbr
    ensures NoDup(r.blks) && pool.AsPool() == UncheckedRun(r.blks, []).pool
  {
    FormDistinct(r.blks, start, q.blkSize, q.blkAlign);
  }

  /** Of the blocks of a pool in the heap's own memory the checked build can free those in use that
      the pointer array has moved onto a block of the recorded layout, and no others. */
  lemma NamedBlkFreed(argChk: bool, t: Table, heap: MemPool, q: Ask, r: Allocs, p: Pool, held: set<Word>, k: nat)
    requires heap in t.space && Positive(q) && InRange(q) && Suffices(t, heap, q)
    requires BlksFrom(Start(t, heap, q), q, r) && NamesHeap(t, heap, q) && Conserved(p, r.blks, held) && k < q.blkNbr
    ensures var l, s := LayoutOf(PlanOf(argChk, t, heap, q), q), Stride(q.blkSize, q.blkAlign);
            var h := t.space[heap].cursor;
            var d := Displacement(h.next, PtrsSize(h, q.blkNbr), q.blkAlign);
            && LaidOut(l, q.blkNbr)
            && (Free(true, l, p, r.blks[k]).err == None <==> r.blks[k] in held && d % s == 0 && k + d / s < q.blkNbr)
  {
    var h := t.space[heap].cursor;
    PlanLaidOut(argChk, t, heap, q);
    PlanInSegment(argChk, t, heap, q);
    LaterFreed(LayoutOf(PlanOf(argChk, t, heap, q), q), PtrsSize(h, q.blkNbr), r.blks, p, held, k);
  }

  /** Of misplaced blocks the checked build can never free the last one. */
  lemma MisplacedBlkLost(argChk: bool, t: Table, heap: MemPool, q: Ask, r: Allocs, p: Pool)
    requires heap in t.space && Positive(q) && InRange(q) && Suffices(t, heap, q)
    requires BlksFrom(Start(t, heap, q), q, r) && Misplaced(t, heap, q) && p.ix <= |p.ptrs|
    ensures var l := LayoutOf(PlanOf(argChk, t, heap, q), q);
            LaidOut(l, q.blkNbr) && Free(true, l, p, r.blks[q.blkNbr - 1]) == Freed(p, InvalidBlkAddr)
  {
    var h := t.space[heap].cursor;
    PlanLaidOut(argChk, t, heap, q);
    PlanInSegment(argChk, t, heap, q);
    LastBlkLost(LayoutOf(PlanOf(argChk, t, heap, q), q), PtrsSize(h, q.blkNbr), r.blks, p);
  }

  /** A table that holds nothing but a fresh heap of some size at 0x2000_0000. */
  ghost predicate FreshHeap(t: Table, heap: MemPool, size: Word) {
    t.space == map[heap := Space(0x2000_0000, size, Cursor(0x2000_0000, size))] && t.segs == [heap]
  }

  /** One block of 4 octets from a heap of 4096 octets named as dedicated memory: the pool records
      the address of its pointer array as its start. */
  lemma HeapNamed(t: Table, heap: MemPool)
    requires FreshHeap(t, heap, 0x1000)
    ensures var q := Ask(0x2000_0000, 0x1000, 1, 4, 4);
            && Suffices(t, heap, q) && Misplaced(t, heap, q)
            && PlanOf(true, t, heap, q) == Plan(None, 0, 0x2000_0000, 4) && Start(t, heap, q) == 0x2000_0004
  {
    assert Pad(0x2000_0000, 4) == 0 && Pad(0x2000_0004, 4) == 0 && Pad(4, 4) == 0;
    var q := Ask(0x2000_0000, 0x1000, 1, 4, 4);
    assert NamesHeap(t, heap, q);
    NamesHeapMet(t, heap, q);
    PlanIsVerdict(true, t, heap, q);
  }

  /** One block of 4096 octets there passes all checks and cannot be allocated. */
  lemma HeapNamedLate(t: Table, heap: MemPool)
    requires FreshHeap(t, heap, 0x1000)
    ensures FailsLate(t, heap, Ask(0x2000_0000, 0x1000, 1, 0x1000, 4))
  {
    assert Pad(0x2000_0000, 4) == 0 && Pad(0x2000_0004, 4) == 0 && Pad(0x1000, 4) == 0;
    var q := Ask(0x2000_0000, 0x1000, 1, 0x1000, 4);
    assert NamesHeap(t, heap, q);
    NamesHeapMet(t, heap, q);
    FailsLateIff(t, heap, q);
  }

  lemma OversizedWraps(start: Word, q: Ask)
    requires Positive(q) && q.blkNbr == 131073 && q.blkSize == 32769 && q.blkAlign == 1
    ensures BlksSize(start, q) == 0x1_0002_8001 && WrapFits(start, 0x2_8001, q)
  {
    PadToOctet(start);
    PadToOctet(32769);
    ModUnique(32769 * 131072, WORD, 1, 0x2_0000);
    ModUnique(0x1_0002_8001, WORD, 1, 0x2_8001);
    UnnoticedWith(start, 131073, 32769, 1, 32769, 32769 * 131072, 0x2_0000);
  }

  /** 131073 blocks of 32769 octets from a heap of 1 MiB, whether it is named as dedicated memory or
      not: more than 4 GiB in all, which the checks take for 163841 octets. */
  lemma OversizedLate(t: Table, heap: MemPool, base: Word, memSize: Word)
    requires FreshHeap(t, heap, 0x10_0000) && (base == 0 || (base == 0x2000_0000 && memSize == 0x10_0000))
    ensures FailsLate(t, heap, Ask(base, memSize, 131073, 32769, 1))
    ensures !Suffices(t, heap, Ask(base, memSize, 131073, 32769, 1))
  {
    var q := Ask(base, memSize, 131073, 32769, 1);
    assert Pad(0x2000_0000, PTR_SIZE) == 0;
    assert base != 0 ==> NamesHeap(t, heap, q);
    if base != 0 { NamesHeapMet(t, heap, q); }
    OversizedWraps(0x2000_0000, q);
    OversizedWraps(Start(t, heap, q), q);
    FailsLateIff(t, heap, q);
  }

  lemma OverrunSizes(q: Ask)
    requires q == Ask(0x4000_0000, 0x5000_0000, 0x4000_0003, 1, 1)
    ensures ArraySize(q.blkNbr) == 12 && BlksSize(0x4000_0000, q) == 0x4000_0003
  {
    PadToOctet(0x4000_0000);
    PadToOctet(1);
    ModUnique(PTR_SIZE * q.blkNbr, WORD, 1, 12);
  }

  lemma OverrunFree(t: Table, heap: MemPool, q: Ask)
    requires FreshHeap(t, heap, 0x10_0000) && q == Ask(0x4000_0000, 0x5000_0000, 0x4000_0003, 1, 1)
    ensures !Clashes(t, q) && !NamesHeap(t, heap, q) && HeadCursor(t, heap, q) == Cursor(0x4000_0000, 0x5000_0000)
    ensures Pad(t.space[heap].cursor.next, PTR_SIZE) == 0
  {
    assert Pad(0x2000_0000, PTR_SIZE) == 0;
    StopIs(t.space, t.segs, q.base, 0, 1);
    assert !Clash(t.space[heap], q);
  }

  lemma OverrunPasses(t: Table, heap: MemPool, q: Ask)
    requires FreshHeap(t, heap, 0x10_0000) && q == Ask(0x4000_0000, 0x5000_0000, 0x4000_0003, 1, 1)
    ensures PlanOf(true, t, heap, q).err == None
  {
    OverrunSizes(q);
    OverrunFree(t, heap, q);
    PassesIff(t, heap, q);
  }

  lemma OverrunRuns(t: Table, heap: MemPool, q: Ask)
    requires FreshHeap(t, heap, 0x10_0000) && q == Ask(0x4000_0000, 0x5000_0000, 0x4000_0003, 1, 1)
    ensures PtrsTaken(t.space[heap].cursor, q.blkNbr) == 12
    ensures |AllocsOf(true, t, heap, q).blks| == q.blkNbr
  {
    OverrunSizes(q);
    OverrunFree(t, heap, q);
    RunDecides(true, t, heap, q);
  }

  /** 2^30 + 3 blocks of one octet in dedicated memory: the array is taken to be 12 octets, and all
      blocks are allocated. */
  lemma ArrayOverrun(t: Table, heap: MemPool)
    requires FreshHeap(t, heap, 0x10_0000)
    ensures var q := Ask(0x4000_0000, 0x5000_0000, 0x4000_0003, 1, 1);
            && Overruns(t, heap, q) && ArraySize(q.blkNbr) == 12
            && |AllocsOf(true, t, heap, q).blks| == q.blkNbr
  {
    var q := Ask(0x4000_0000, 0x5000_0000, 0x4000_0003, 1, 1);
    OverrunSizes(q);
    OverrunPasses(t, heap, q);
    OverrunRuns(t, heap, q);
  }

  // ---------------------------------------------------------------- pointer updates

  /** The pointer updates that put a pool right behind the head of its segment. */
  method PushLinks(pool: MemPool, seg: MemPool, ghost l: map<MemPool, Links>)
    requires Linked(l) && pool !in l && pool.segPrevPtr == null && pool.segNextPtr == null
    requires seg in l && (l[seg].poolNext != null ==> l[seg].poolNext in l)
    modifies pool`poolPrevPtr, pool`poolNextPtr, pool`segHeadPtr, l.Keys`poolPrevPtr, l.Keys`poolNextPtr
    ensures Linked(Pushed(l, pool, seg, l[seg].poolNext)) && pool.segHeadPtr == seg
  {
    assert LinksOf(seg) == l[seg];
    ghost var next, m := l[seg].poolNext, Pushed(l, pool, seg, l[seg].poolNext);
    PushedFacts(l, pool, seg, next);
    pool.LinkPool(seg);
    forall p | p in m ensures LinksOf(p) == m[p] {
      assert p != pool ==> old(LinksOf(p)) == l[p];
    }
  }

  /** The pointer updates that put a new segment between prev and next. */
  method SpliceLinks(pool: MemPool, prev: MemPool?, next: MemPool?, ghost l: map<MemPool, Links>)
    requires Linked(l) && pool !in l && pool.poolPrevPtr == null && pool.poolNextPtr == null
    requires (prev != null ==> prev in l) && (next != null ==> next in l) && (prev == null || prev != next)
    modifies pool`segPrevPtr, pool`segNextPtr, pool`segHeadPtr, l.Keys`segPrevPtr, l.Keys`segNextPtr
    ensures Linked(Spliced(l, pool, prev, next)) && pool.segHeadPtr == pool
  {
    ghost var m := Spliced(l, pool, prev, next);
    SplicedFacts(l, pool, prev, next);
    pool.LinkSeg(prev, next);
    forall p | p in m ensures LinksOf(p) == m[p] {
      assert p != pool ==> old(LinksOf(p)) == l[p] && SplicedAt(l, m, pool, prev, next, p);
    }
  }

  // ---------------------------------------------------------------- the globals of lib_mem.c

  class Mem {
    const argChk: bool
    const heapBase: Word
    const heapSize: Word
    const heap: MemPool
    var poolTbl: MemPool?

    /** The table as a value. */
    ghost var tbl: Table

    /** The objects form the recorded table, whose first segment Mem_PoolTbl names. */
    ghost predicate Valid()
      reads this`tbl, this`poolTbl
      reads tbl.links.Keys`segHeadPtr, tbl.links.Keys`segPrevPtr, tbl.links.Keys`segNextPtr
      reads tbl.links.Keys`poolPrevPtr, tbl.links.Keys`poolNextPtr
      reads tbl.space.Keys`segAddr, tbl.space.Keys`segSizeTot
      reads tbl.space.Keys`segAddrNextAvail, tbl.space.Keys`segSizeRem
    {
      Linked(tbl.links) && Measured(tbl.space) && heap in tbl.segs && poolTbl == tbl.segs[0]
    }

    /** Before Mem_Init the table pointer is null. */
    constructor (argChk: bool, heapBase: Word, heapSize: Word)
      ensures this.argChk == argChk && this.heapBase == heapBase && this.heapSize == heapSize
      ensures poolTbl == null && tbl == EMPTY && fresh(heap)
    {
      this.argChk, this.heapBase, this.heapSize, poolTbl := argChk, heapBase, heapSize, null;
      heap := new MemPool();
      tbl := EMPTY;
    }

    /** Mem_Init. */
    method Init()
      requires 0 < heapBase && 0 < heapSize && heapBase + heapSize < WORD
      modifies this, heap
      ensures Valid() && heap.typ == TypeHeap
      ensures tbl.segs == [heap] && tbl.cols == map[heap := []] && tbl.regions == []
      ensures tbl.space == map[heap := Space(heapBase, heapSize, Cursor(heapBase, heapSize))]
      ensures tbl.links == map[heap := Links(heap, null, null, null, null)]
    {
      heap.InitHeap(heapBase, heapSize);
      poolTbl := heap;
      tbl := HeapTable(heap, heapBase, heapSize);
    }

    // ---------------------------------------------------------------- searching the table

    lemma SegAt(i: nat)
      requires Linked(tbl.links) && Measured(tbl.space) && i < |tbl.segs|
      ensures var p := tbl.segs[i];
              && p in tbl.space && p.segAddr == tbl.space[p].addr && p.segSizeTot == tbl.space[p].size
              && p.segNextPtr == At(tbl.segs, i + 1) && Sound(tbl.space[p])
    {
      assert SegLinked(tbl.links, tbl.segs, i);
      assert LinksOf(tbl.segs[i]) == tbl.links[tbl.segs[i]] && SpaceOf(tbl.segs[i]) == tbl.space[tbl.segs[i]];
    }

    /** The search loop of Mem_PoolCreate over the segments. */
    method FindSeg(q: Ask) returns (seg: MemPool?, prev: MemPool?, next: MemPool?, rel: Relation)
      requires Valid() && q.base > 0 && q.memSize > 0 && InRange(q)
      ensures rel == Met(tbl, q)
      ensures rel == Identical ==> seg == At(tbl.segs, Where(tbl, q))
      ensures rel != Identical ==> seg == null
      ensures rel == InFront || rel == Behind ==> Gap(tbl, prev, next, q)
    {
      ghost var sp, segs, at := tbl.space, tbl.segs, 0;
      seg, prev, next, rel := null, null, poolTbl, Behind;
      while next != null
        invariant at <= |segs| && prev == Before(segs, at) && next == At(segs, at)
        invariant seg == null && rel == Behind
        invariant forall j :: 0 <= j < at ==> sp[segs[j]].addr + sp[segs[j]].size <= q.base
        decreases |segs| - at
      {
        SegAt(at);
        rel := Compare(next.segAddr, next.segSizeTot, q.base, q.memSize);
        CompareIs(sp[next], q.base, q.memSize);
        if rel == Identical {
          seg := next;
          break;
        }
        if rel != Behind {
          break;
        }
        prev, next, at := next, next.segNextPtr, at + 1;
      }
      StopIs(sp, segs, q.base, 0, at);
    }

    // ---------------------------------------------------------------- allocation

    /** Everything is as recorded except the cursor of seg. */
    ghost predicate AllBut(seg: MemPool)
      reads this`tbl, this`poolTbl, seg`segAddr, seg`segSizeTot
      reads tbl.links.Keys`segHeadPtr, tbl.links.Keys`segPrevPtr, tbl.links.Keys`segNextPtr
      reads tbl.links.Keys`poolPrevPtr, tbl.links.Keys`poolNextPtr
      reads tbl.space.Keys`segAddr, tbl.space.Keys`segSizeTot
      reads tbl.space.Keys`segAddrNextAvail, tbl.space.Keys`segSizeRem
    {
      && Linked(tbl.links) && heap in tbl.segs && poolTbl == tbl.segs[0] && seg in tbl.space
      && seg.segAddr == tbl.space[seg].addr && seg.segSizeTot == tbl.space[seg].size
      && forall s {:trigger SpaceOf(s)} :: s in tbl.space && s != seg ==> SpaceOf(s) == tbl.space[s]
    }

    /** Brings the record up to date after the cursor of seg has moved. */
    ghost method Record(seg: MemPool, u: Table)
      requires AllBut(seg) && SameShape(tbl, u) && u.space == Moved(tbl.space, seg, seg.Seg())
      modifies this`tbl
      ensures Valid() && tbl == u
    {
      assert Linked(u.links);
      forall s | s in u.space ensures SpaceOf(s) == u.space[s] {
        assert s != seg ==> SpaceOf(s) == tbl.space[s];
      }
      tbl := u;
    }

    /** One allocation from a segment of the table. */
    method TakeFrom(seg: MemPool, size: Word, align: Word) returns (blk: Word)
      requires Valid() && seg in tbl.space && align > 0
      modifies seg`segAddrNextAvail, seg`segSizeRem
      ensures AllBut(seg) && Alloc(seg.Seg(), blk) == SegAlloc(argChk, tbl.space[seg].cursor, size, align)
    {
      assert SpaceOf(seg) == tbl.space[seg];
      blk := seg.AllocSeg(argChk, size, align);
      forall s | s in tbl.space && s != seg ensures SpaceOf(s) == tbl.space[s] {
        assert old(SpaceOf(s)) == tbl.space[s];
      }
    }

    /** The same with the record of it. */
    method Take(seg: MemPool, size: Word, align: Word) returns (blk: Word)
      requires Valid() && seg in tbl.space && align > 0 && Sane(argChk, tbl.space[seg].cursor, size, align)
      modifies this`tbl, seg`segAddrNextAvail, seg`segSizeRem
      ensures Valid()
      ensures blk != 0 <==> Fits(old(tbl).space[seg].cursor, size, align)
      ensures blk != 0 ==> Taken(old(tbl), tbl, seg, size, align, blk)
      ensures blk == 0 ==> tbl == old(tbl)
    {
      blk := TakeFrom(seg, size, align);
      ghost var u := TakeOne(tbl, seg, argChk, size, align, Alloc(seg.Seg(), blk));
      Record(seg, u);
    }

    /** A run of allocations from a segment of the table. */
    method TakeBlksFrom(seg: MemPool, n: Word, size: Word, align: Word) returns (ptrs: array<Word>, nbr: nat)
      requires Valid() && seg in tbl.space && align > 0
      modifies seg`segAddrNextAvail, seg`segSizeRem
      ensures AllBut(seg) && fresh(ptrs) && ptrs.Length == n && nbr <= n
      ensures Allocs(seg.Seg(), ptrs[..nbr]) == SegAllocs(argChk, tbl.space[seg].cursor, n, size, align)
    {
      assert SpaceOf(seg) == tbl.space[seg];
      ptrs, nbr := seg.AllocBlks(argChk, n, size, align);
      forall s | s in tbl.space && s != seg ensures SpaceOf(s) == tbl.space[s] {
        assert old(SpaceOf(s)) == tbl.space[s];
      }
    }

    /** The same with the record of it. */
    method TakeBlks(seg: MemPool, n: Word, size: Word, align: Word)
      returns (ptrs: array<Word>, nbr: nat, ghost r: Allocs)
      requires Valid() && seg in tbl.space && align > 0 && SaneRun(argChk, tbl.space[seg].cursor, n, size, align)
      modifies this`tbl, seg`segAddrNextAvail, seg`segSizeRem
      ensures Valid() && fresh(ptrs) && ptrs.Length == n && nbr <= n && seg.Seg() == r.cursor
      ensures r == SegAllocs(argChk, old(tbl).space[seg].cursor, n, size, align) && r.blks == ptrs[..nbr]
      ensures tbl == RanFrom(old(tbl), seg, r, size, align)
    {
      ptrs, nbr := TakeBlksFrom(seg, n, size, align);
      r := Allocs(seg.Seg(), ptrs[..nbr]);
      ghost var u := TakeRun(tbl, seg, argChk, n, size, align, r);
      Record(seg, u);
    }

    // ---------------------------------------------------------------- linking

    /** Puts a pool right behind the head of its segment. */
    method Push(pool: MemPool, seg: MemPool)
      requires Valid() && pool !in tbl.links && pool.segPrevPtr == null && pool.segNextPtr == null
      requires seg in tbl.segs && Hooked(tbl, seg)
      modifies this`tbl
      modifies pool`poolPrevPtr, pool`poolNextPtr, pool`segHeadPtr, tbl.links.Keys`poolPrevPtr, tbl.links.Keys`poolNextPtr
      ensures Valid() && tbl == WithPool(old(tbl), pool, seg) && pool.segHeadPtr == seg
    {
      PushLinks(pool, seg, tbl.links);
      forall s | s in tbl.space ensures SpaceOf(s) == tbl.space[s] {
        assert old(SpaceOf(s)) == tbl.space[s];
      }
      ghost var u := AddPool(tbl, pool, seg);
      Adopt(u);
    }

    /** The pointer updates that put a new segment between prev and next. */
    method SpliceObjects(pool: MemPool, prev: MemPool?, next: MemPool?)
      requires Valid() && pool !in tbl.links && pool.poolPrevPtr == null && pool.poolNextPtr == null
      requires (prev != null ==> prev in tbl.links) && (next != null ==> next in tbl.links) && (prev == null || prev != next)
      modifies this`poolTbl
      modifies pool`segPrevPtr, pool`segNextPtr, pool`segHeadPtr, tbl.links.Keys`segPrevPtr, tbl.links.Keys`segNextPtr
      ensures Linked(Spliced(tbl.links, pool, prev, next)) && Measured(tbl.space) && pool.segHeadPtr == pool
      ensures poolTbl == if prev == null then pool else tbl.segs[0]
    {
      SpliceLinks(pool, prev, next, tbl.links);
      if prev == null {
        poolTbl := pool;
      }
      forall s | s in tbl.space ensures SpaceOf(s) == tbl.space[s] {
        assert old(SpaceOf(s)) == tbl.space[s];
      }
    }

    /** Puts a new segment between prev and next; u is the table that has it. */
    method Splice(pool: MemPool, prev: MemPool?, next: MemPool?, ghost u: Table)
      requires Valid() && pool !in tbl.links && pool.poolPrevPtr == null && pool.poolNextPtr == null
      requires (prev != null ==> prev in tbl.links) && (next != null ==> next in tbl.links) && (prev == null || prev != next)
      requires u.links == Spliced(tbl.links, pool, prev, next) && u.space == tbl.space[pool := SpaceOf(pool)]
      requires heap in u.segs && u.segs[0] == if prev == null then pool else tbl.segs[0]
      modifies this`poolTbl, this`tbl
      modifies pool`segPrevPtr, pool`segNextPtr, pool`segHeadPtr, tbl.links.Keys`segPrevPtr, tbl.links.Keys`segNextPtr
      ensures Valid() && tbl == u && pool.segHeadPtr == pool
    {
      SpliceObjects(pool, prev, next);
      MeasuredWith(tbl.space, pool, SpaceOf(pool));
      Adopt(u);
    }

    /** Brings the record up to date after links have changed. */
    ghost method Adopt(u: Table)
      requires Linked(u.links) && Measured(u.space) && heap in u.segs && poolTbl == u.segs[0]
      modifies this`tbl
      ensures Valid() && tbl == u
    {
      tbl := u;
    }

    lemma MeasuredWith(sp: map<MemPool, Space>, pool: MemPool, s: Space)
      requires Measured(sp) && SpaceOf(pool) == s
      ensures Measured(sp[pool := s])
    {
    }

    // ---------------------------------------------------------------- creating a pool

    /** The part of Mem_PoolCreate that makes the pool object a segment. */
    method AsSegment(pool: MemPool, q: Ask)
      requires Valid() && pool !in tbl.space
      modifies pool`segAddr, pool`segAddrNextAvail, pool`segSizeTot, pool`segSizeRem
      ensures Valid() && SpaceOf(pool) == Space(q.base, q.memSize, Cursor(q.base, q.memSize))
    {
      pool.InitSeg(q.base, q.memSize);
    }

    /** The part of Mem_PoolCreate that finds the segment with the requested memory or makes a new one. */
    method ChooseSeg(pool: MemPool, q: Ask) returns (seg: MemPool?, prev: MemPool?, next: MemPool?, err: LibErr)
      requires Valid() && pool !in tbl.links && pool !in tbl.space && q.base != 0 && q.memSize > 0
      requires InRange(q) || (argChk && q.base + q.memSize > WORD)
      modifies pool`segAddr, pool`segAddrNextAvail, pool`segSizeTot, pool`segSizeRem
      ensures Valid()
      ensures err == if !InRange(q) then InvalidBlkAddr else if Clashes(tbl, q) then InvalidSegOverlap else None
      ensures err == None ==> seg == Head(tbl, heap, pool, q)
      ensures err == None && seg == pool ==>
                && SpaceOf(pool) == Space(q.base, q.memSize, Cursor(q.base, q.memSize)) && Gap(tbl, prev, next, q)
    {
      seg, prev, next := null, null, null;
      WrapOnce(q.base + q.memSize - 1);
      if argChk && Wrap(q.base + q.memSize - 1) < q.base {
        err := InvalidBlkAddr;
        return;
      }
      var rel;
      seg, prev, next, rel := FindSeg(q);
      MetOverlapping(tbl, q);
      if rel == Overlapping {
        err := InvalidSegOverlap;
        return;
      }
      err := None;
      if seg == null {
        seg := pool;
        AsSegment(pool, q);
      }
    }

    /** The part of Mem_PoolCreate that selects the segment and checks the sizes. */
    method Choose(pool: MemPool, q: Ask) returns (seg: MemPool?, prev: MemPool?, next: MemPool?, plan: Plan)
      requires Valid() && heap in tbl.space && pool !in tbl.links && pool !in tbl.space
      requires Positive(q)
      requires InRange(q) || (argChk && q.base + q.memSize > WORD)
      modifies pool`segAddr, pool`segAddrNextAvail, pool`segSizeTot, pool`segSizeRem
      ensures Valid()
      ensures plan == if InRange(q) then PlanOf(argChk, tbl, heap, q) else Fail(InvalidBlkAddr, 0)
      ensures plan.err == None ==> seg == Head(tbl, heap, pool, q)
      ensures plan.err == None && seg == pool ==>
                && SpaceOf(pool) == Space(q.base, q.memSize, Cursor(q.base, q.memSize)) && Gap(tbl, prev, next, q)
    {
      assert SpaceOf(heap) == tbl.space[heap];
      if q.base == 0 {
        seg, prev, next := heap, heap, heap;
        plan := HeapPlan(argChk, heap.Seg(), q);
      } else {
        var err;
        seg, prev, next, err := ChooseSeg(pool, q);
        if err != None {
          plan := Fail(err, 0);
        } else {
          assert seg != pool ==> SpaceOf(seg) == tbl.space[seg];
          plan := SegPlan(argChk, heap.Seg(), seg.Seg(), q);
        }
      }
    }

    /** Only when all blocks have been allocated is the pool put behind its segment head. */
    method PushIf(all: bool, pool: MemPool, seg: MemPool)
      requires Valid() && pool !in tbl.links && pool.segPrevPtr == null && pool.segNextPtr == null
      requires seg in tbl.segs && Hooked(tbl, seg) && seg in tbl.space
      modifies this`tbl
      modifies pool`poolPrevPtr, pool`poolNextPtr, pool`segHeadPtr, tbl.links.Keys`poolPrevPtr, tbl.links.Keys`poolNextPtr
      ensures Valid() && tbl == if all then WithPool(old(tbl), pool, seg) else old(tbl)
      ensures all ==> pool.segHeadPtr == seg
      ensures pool.typ == old(pool.typ)
    {
      if all {
        Push(pool, seg);
      }
    }

    /** The end of Mem_PoolCreate for a pool in a segment of the table: blocks, then links. */
    method BuildIn(pool: MemPool, seg: MemPool, q: Ask) returns (ptrs: array<Word>, nbr: nat, ghost r: Allocs)
      requires Valid() && pool !in tbl.links && pool.segPrevPtr == null && pool.segNextPtr == null
      requires seg in tbl.segs && Hooked(tbl, seg) && seg in tbl.space && q.blkAlign > 0
      requires SaneRun(argChk, tbl.space[seg].cursor, q.blkNbr, q.blkSize, q.blkAlign)
      modifies this`tbl, seg`segAddrNextAvail, seg`segSizeRem
      modifies pool`poolPrevPtr, pool`poolNextPtr, pool`segHeadPtr, tbl.links.Keys`poolPrevPtr, tbl.links.Keys`poolNextPtr
      ensures Valid() && fresh(ptrs) && ptrs.Length == q.blkNbr && nbr <= q.blkNbr
      ensures r == SegAllocs(argChk, old(tbl).space[seg].cursor, q.blkNbr, q.blkSize, q.blkAlign) && r.blks == ptrs[..nbr]
      ensures tbl == InSegmentOf(old(tbl), pool, seg, q, r)
      ensures if nbr < q.blkNbr then seg.Seg() == r.cursor else pool.segHeadPtr == seg
      ensures pool.typ == old(pool.typ)
    {
      ptrs, nbr, r := TakeBlks(seg, q.blkNbr, q.blkSize, q.blkAlign);
      label Allocated:
      PushIf(nbr == q.blkNbr, pool, seg);
      assert unchanged@Allocated(ptrs);
    }

    /** The end of Mem_PoolCreate for a pool that becomes a segment of its own: its links. */
    method BuildNew(pool: MemPool, prev: MemPool?, next: MemPool?, q: Ask, ghost r: Allocs)
      requires Valid() && pool !in tbl.links && pool.poolPrevPtr == null && pool.poolNextPtr == null
      requires q.base > 0 && q.memSize > 0 && InRange(q) && q.blkAlign > 0 && Gap(tbl, prev, next, q)
      requires SaneRun(argChk, Cursor(q.base, q.memSize), q.blkNbr, q.blkSize, q.blkAlign)
      requires r == SegAllocs(argChk, Cursor(q.base, q.memSize), q.blkNbr, q.blkSize, q.blkAlign)
      requires SpaceOf(pool) == Space(q.base, q.memSize, r.cursor)
      modifies this`poolTbl, this`tbl
      modifies pool`segPrevPtr, pool`segNextPtr, pool`segHeadPtr, tbl.links.Keys`segPrevPtr, tbl.links.Keys`segNextPtr
      ensures Valid() && pool.segHeadPtr == pool
      ensures tbl.segs == Insert(old(tbl).segs, Where(old(tbl), q), pool) && tbl.cols == old(tbl).cols[pool := []]
      ensures tbl.regions == old(tbl).regions + BlkRegions(pool, r.blks, q.blkSize, q.blkAlign)
      ensures tbl.space == old(tbl).space[pool := Space(q.base, q.memSize, r.cursor)]
      ensures pool.typ == old(pool.typ)
    {
      ghost var u := NewSegment(tbl, heap, pool, argChk, q, r);
      Splice(pool, prev, next, u);
    }

    /** Such a pool: blocks, then links. */
    method BuildOwn(pool: MemPool, prev: MemPool?, next: MemPool?, q: Ask) returns (ptrs: array<Word>, nbr: nat, ghost r: Allocs)
      requires Valid() && pool !in tbl.links && pool !in tbl.space && pool.poolPrevPtr == null && pool.poolNextPtr == null
      requires heap in tbl.space && Positive(q) && InRange(q) && pool == Head(tbl, heap, pool, q) && Gap(tbl, prev, next, q)
      requires SaneRun(argChk, Cursor(q.base, q.memSize), q.blkNbr, q.blkSize, q.blkAlign)
      requires SpaceOf(pool) == Space(q.base, q.memSize, Cursor(q.base, q.memSize))
      modifies this`poolTbl, this`tbl, pool`segAddrNextAvail, pool`segSizeRem
      modifies pool`segPrevPtr, pool`segNextPtr, pool`segHeadPtr, tbl.links.Keys`segPrevPtr, tbl.links.Keys`segNextPtr
      ensures Valid() && fresh(ptrs) && ptrs.Length == q.blkNbr && nbr <= q.blkNbr && r.blks == ptrs[..nbr]
      ensures r == SegAllocs(argChk, Cursor(q.base, q.memSize), q.blkNbr, q.blkSize, q.blkAlign)
      ensures Ran(old(tbl), tbl, heap, pool, q, r)
      ensures if nbr < q.blkNbr then pool.Seg() == r.cursor else pool.segHeadPtr == pool
      ensures pool.typ == old(pool.typ)
    {
      assert q.base > 0 by { assert q.base == 0 ==> pool == heap; }
      ptrs, nbr := pool.AllocBlks(argChk, q.blkNbr, q.blkSize, q.blkAlign);
      r := Allocs(pool.Seg(), ptrs[..nbr]);
      if nbr == q.blkNbr {
        BuildNew(pool, prev, next, q, r);
      }
    }

    /** The part of Mem_PoolCreate that allocates the blocks and links the pool. */
    method Furnish(pool: MemPool, seg: MemPool, prev: MemPool?, next: MemPool?, q: Ask)
      returns (ptrs: array<Word>, nbr: nat, ghost r: Allocs)
      requires Valid() && heap in tbl.space && pool !in tbl.links && pool !in tbl.space
      requires pool.segPrevPtr == null && pool.segNextPtr == null && pool.poolPrevPtr == null && pool.poolNextPtr == null
      requires Positive(q) && InRange(q) && seg == Head(tbl, heap, pool, q)
      requires SaneRun(argChk, HeadCursor(tbl, heap, q), q.blkNbr, q.blkSize, q.blkAlign)
      requires seg == pool ==> SpaceOf(pool) == Space(q.base, q.memSize, Cursor(q.base, q.memSize)) && Gap(tbl, prev, next, q)
      modifies this`poolTbl, this`tbl, seg`segAddrNextAvail, seg`segSizeRem
      modifies pool`segPrevPtr, pool`segNextPtr, pool`poolPrevPtr, pool`poolNextPtr, pool`segHeadPtr
      modifies tbl.links.Keys`segPrevPtr, tbl.links.Keys`segNextPtr, tbl.links.Keys`poolPrevPtr, tbl.links.Keys`poolNextPtr
      ensures Valid() && fresh(ptrs) && ptrs.Length == q.blkNbr && nbr <= q.blkNbr && r.blks == ptrs[..nbr]
      ensures r == SegAllocs(argChk, HeadCursor(old(tbl), heap, q), q.blkNbr, q.blkSize, q.blkAlign)
      ensures Ran(old(tbl), tbl, heap, pool, q, r)
      ensures if nbr < q.blkNbr then seg.Seg() == r.cursor else pool.segHeadPtr == seg
      ensures pool.typ == old(pool.typ)
    {
      if seg == pool {
        ptrs, nbr, r := BuildOwn(pool, prev, next, q);
      } else {
        HeadHooked(tbl, seg);
        ptrs, nbr, r := BuildIn(pool, seg, q);
        RanInSegment(old(tbl), tbl, heap, pool, q, r);
      }
    }

    /** The end of Mem_PoolCreate. */
    method Configure(pool: MemPool, q: Ask, plan: Plan, ptrs: array<Word>)
      requires Valid() && ptrs.Length == q.blkNbr
      modifies pool`typ, pool`poolAddrStart, pool`poolAddrEnd, pool`poolPtrs, pool`poolSize
      modifies pool`blkAlign, pool`blkSize, pool`blkNbr, pool`blkIx
      ensures Valid() && Configured(pool, q, plan) && pool.poolPtrs == ptrs && ptrs[..] == old(ptrs[..])
      ensures tbl == old(tbl) && pool.segHeadPtr == old(pool.segHeadPtr)
    {
      pool.CfgPool(plan.addrPool, plan.sizeTotPool, ptrs, q.blkSize, q.blkAlign);
    }

    /** What Mem_PoolCreate does once all blocks are allocated, or one of them could not be. */
    method Settle(pool: MemPool, seg: MemPool, q: Ask, plan: Plan, ptrs: array<Word>, nbr: nat, ghost r: Allocs)
      returns (octetsReqd: Word, err: LibErr)
      requires Valid() && ptrs.Length == q.blkNbr && nbr <= q.blkNbr && r.blks == ptrs[..nbr] && q.blkAlign > 0
      requires nbr < q.blkNbr ==> seg.Seg() == r.cursor
      modifies pool`typ, pool`poolAddrStart, pool`poolAddrEnd, pool`poolPtrs, pool`poolSize
      modifies pool`blkAlign, pool`blkSize, pool`blkNbr, pool`blkIx
      ensures Valid() && tbl == old(tbl) && pool.segHeadPtr == old(pool.segHeadPtr)
      ensures err == if |r.blks| == q.blkNbr then None else SegEmpty
      ensures octetsReqd == if |r.blks| == q.blkNbr then 0 else LateShortfall(argChk, r.cursor, q.blkNbr - |r.blks|, q)
      ensures err == None ==> Configured(pool, q, plan) && pool.poolPtrs == ptrs && ptrs[..] == r.blks
      ensures err != None ==> pool.typ == old(pool.typ)
    {
      if nbr < q.blkNbr {
        octetsReqd, err := LateShortfall(argChk, seg.Seg(), q.blkNbr - nbr, q), SegEmpty;
      } else {
        octetsReqd, err := 0, None;
        assert ptrs[..] == r.blks;
        Configure(pool, q, plan, ptrs);
      }
    }

    /** The part of Mem_PoolCreate that follows the allocation of the pointer array. */
    method Finish(pool: MemPool, seg: MemPool, prev: MemPool?, next: MemPool?, q: Ask, plan: Plan)
      returns (octetsReqd: Word, err: LibErr, ghost r: Allocs)
      requires Valid() && heap in tbl.space && pool !in tbl.links && pool !in tbl.space
      requires pool.segPrevPtr == null && pool.segNextPtr == null && pool.poolPrevPtr == null && pool.poolNextPtr == null
      requires Positive(q) && InRange(q) && seg == Head(tbl, heap, pool, q)
      requires SaneRun(argChk, HeadCursor(tbl, heap, q), q.blkNbr, q.blkSize, q.blkAlign)
      requires seg == pool ==> SpaceOf(pool) == Space(q.base, q.memSize, Cursor(q.base, q.memSize)) && Gap(tbl, prev, next, q)
      modifies this`poolTbl, this`tbl, seg`segAddrNextAvail, seg`segSizeRem, pool
      modifies tbl.links.Keys`segPrevPtr, tbl.links.Keys`segNextPtr, tbl.links.Keys`poolPrevPtr, tbl.links.Keys`poolNextPtr
      ensures Valid() && Finished(argChk, old(tbl), tbl, heap, pool, q, octetsReqd, err, r)
      ensures err == None ==> Configured(pool, q, plan) && pool.poolPtrs[..] == r.blks && pool.segHeadPtr == seg
      ensures if err == None then fresh(pool.poolPtrs) else pool.typ == old(pool.typ)
    {
      var ptrs, nbr;
      ptrs, nbr, r := Furnish(pool, seg, prev, next, q);
      octetsReqd, err := Settle(pool, seg, q, plan, ptrs, nbr, r);
    }

    /** The part of Mem_PoolCreate that allocates the pointer array. */
    method TakePtrs(q: Ask)
      requires Valid() && heap in tbl.space && Positive(q) && (argChk || Sized(tbl, heap, q))
      requires PtrsTaken(tbl.space[heap].cursor, q.blkNbr) <= tbl.space[heap].cursor.rem
      modifies this`tbl, heap`segAddrNextAvail, heap`segSizeRem
      ensures Valid() && tbl == WithPtrs(old(tbl), heap, q)
    {
      var blk := Take(heap, ArraySize(q.blkNbr), PTR_SIZE);
    }

    /** The part of Mem_PoolCreate that follows the checks. */
    method Build(pool: MemPool, seg: MemPool, prev: MemPool?, next: MemPool?, q: Ask, plan: Plan)
      returns (octetsReqd: Word, err: LibErr, ghost r: Allocs)
      requires Valid() && heap in tbl.space && pool !in tbl.links && pool !in tbl.space
      requires pool.segPrevPtr == null && pool.segNextPtr == null && pool.poolPrevPtr == null && pool.poolNextPtr == null
      requires Positive(q) && InRange(q) && (argChk || Sized(tbl, heap, q))
      requires PtrsTaken(tbl.space[heap].cursor, q.blkNbr) <= tbl.space[heap].cursor.rem && (q.base != 0 ==> !Clashes(tbl, q))
      requires seg == Head(tbl, heap, pool, q)
      requires seg == pool ==> SpaceOf(pool) == Space(q.base, q.memSize, Cursor(q.base, q.memSize)) && Gap(tbl, prev, next, q)
      modifies this`poolTbl, this`tbl, seg`segAddrNextAvail, seg`segSizeRem, heap`segAddrNextAvail, heap`segSizeRem, pool
      modifies tbl.links.Keys`segPrevPtr, tbl.links.Keys`segNextPtr, tbl.links.Keys`poolPrevPtr, tbl.links.Keys`poolNextPtr
      ensures Valid() && Finished(argChk, WithPtrs(old(tbl), heap, q), tbl, heap, pool, q, octetsReqd, err, r)
      ensures err == None ==> Configured(pool, q, plan) && pool.poolPtrs[..] == r.blks && pool.segHeadPtr == seg
      ensures if err == None then fresh(pool.poolPtrs) else pool.typ == old(pool.typ)
    {
      PtrsLeave(argChk, tbl, heap, pool, q, prev, next);
      TakePtrs(q);
      octetsReqd, err, r := Finish(pool, seg, prev, next, q, plan);
    }

    /** The part of Mem_PoolCreate that follows the validation of the table. */
    method Create(pool: MemPool, q: Ask) returns (octetsReqd: Word, err: LibErr, ghost r: Allocs)
      requires Valid() && heap in tbl.space && pool !in tbl.links && pool !in tbl.space && pool.Cleared()
      requires Positive(q) && (InRange(q) || (argChk && q.base + q.memSize > WORD))
      requires argChk || Sized(tbl, heap, q)
      modifies this`poolTbl, this`tbl, pool, tbl.space.Keys`segAddrNextAvail, tbl.space.Keys`segSizeRem
      modifies tbl.links.Keys`segPrevPtr, tbl.links.Keys`segNextPtr, tbl.links.Keys`poolPrevPtr, tbl.links.Keys`poolNextPtr
      ensures Valid()
      ensures !InRange(q) ==> err == InvalidBlkAddr && octetsReqd == 0 && tbl == old(tbl)
      ensures InRange(q) ==> Decided(argChk, old(tbl), tbl, heap, pool, q, octetsReqd, err, r)
      ensures InRange(q) && err == None ==>
                && Configured(pool, q, PlanOf(argChk, old(tbl), heap, q)) && pool.poolPtrs[..] == r.blks
                && pool.segHeadPtr == Head(old(tbl), heap, pool, q) && fresh(pool.poolPtrs)
      ensures err != None ==> pool.typ == TypeNone
    {
      octetsReqd, r := 0, Allocs(Cursor(0, 0), []);
      var seg, prev, next, plan := Choose(pool, q);
      if plan.err != None {
        octetsReqd, err := plan.octetsReqd, plan.err;
      } else {
        PlanLeavesRoom(argChk, tbl, heap, q);
        octetsReqd, err, r := Build(pool, seg, prev, next, q, plan);
      }
    }

    /** The part of Mem_PoolCreate that follows the argument checks, and what it amounts to. */
    method CreateExactly(pool: MemPool, q: Ask) returns (octetsReqd: Word, err: LibErr, ghost r: Allocs)
      requires Positive(q) && (InRange(q) || (argChk && q.base + q.memSize > WORD)) && pool.Cleared()
      requires poolTbl == null || (Valid() && pool !in tbl.links && pool !in tbl.space)
      requires poolTbl != null ==> if argChk then InRange(q) ==> !Overruns(tbl, heap, q) else Sized(tbl, heap, q)
      modifies this`poolTbl, this`tbl, pool, tbl.space.Keys`segAddrNextAvail, tbl.space.Keys`segSizeRem
      modifies tbl.links.Keys`segPrevPtr, tbl.links.Keys`segNextPtr, tbl.links.Keys`poolPrevPtr, tbl.links.Keys`poolNextPtr
      ensures err == HeapNotFound <==> old(poolTbl) == null
      ensures err == InvalidBlkAddr <==> old(poolTbl) != null && !InRange(q)
      ensures err == HeapNotFound || err == InvalidBlkAddr ==> octetsReqd == 0 && tbl == old(tbl)
      ensures old(poolTbl) != null ==> Valid()
      ensures old(poolTbl) != null && InRange(q) ==>
                && Decided(argChk, old(tbl), tbl, heap, pool, q, octetsReqd, err, r)
                && (err == InvalidSegOverlap <==> q.base != 0 && Clashes(old(tbl), q))
                && (err == None <==> Suffices(old(tbl), heap, q)) && !ArgumentErr(err)
      ensures err == None ==>
                && BlksFrom(Start(old(tbl), heap, q), q, r)
                && pool.poolPtrs != null && fresh(pool.poolPtrs) && pool.poolPtrs[..] == r.blks
                && Configured(pool, q, PlanOf(argChk, old(tbl), heap, q)) && pool.segHeadPtr == Head(old(tbl), heap, pool, q)
                && pool.Shaped() && LaidOut(pool.AsLayout(), q.blkNbr)
      ensures err != None ==> pool.typ == TypeNone
    {
      if poolTbl == null {
        return 0, HeapNotFound, Allocs(Cursor(0, 0), []);
      }
      octetsReqd, err, r := Create(pool, q);
      if InRange(q) {
        CreatesIff(argChk, old(tbl), tbl, heap, pool, q, octetsReqd, err, r);
        DecidedErrs(argChk, old(tbl), tbl, heap, pool, q, octetsReqd, err, r);
        if err == None { CreatedPool(argChk, old(tbl), heap, pool, q); }
      }
    }

    /** The argument checks of Mem_PoolCreate. */
    method CheckArgs(q: Ask) returns (err: LibErr)
      ensures argChk ==>
                if q.base != 0 && q.memSize == 0 then err == InvalidSegSize
                else if q.blkNbr == 0 then err == InvalidBlkNbr
                else if q.blkSize == 0 then err == InvalidBlkSize
                else if q.blkAlign == 0 then err == InvalidBlkAlign
                else err == None
      ensures err == None <==> !argChk || Positive(q)
    {
      err := None;
      if argChk {
        if q.base != 0 && q.memSize < 1 {
          return InvalidSegSize;
        }
        if q.blkNbr < 1 {
          return InvalidBlkNbr;
        }
        if q.blkSize < 1 {
          return InvalidBlkSize;
        }
        if q.blkAlign < 1 {
          return InvalidBlkAlign;
        }
      }
    }

    /** Mem_PoolCreate on a pool object that is not in the table. */
    method PoolCreate(pool: MemPool, q: Ask) returns (octetsReqd: Word, err: LibErr, ghost r: Allocs)
      requires InRange(q) || q.base + q.memSize > WORD
      requires poolTbl == null || (Valid() && pool !in tbl.links && pool !in tbl.space)
      requires argChk && poolTbl != null && Positive(q) && InRange(q) ==> !Overruns(tbl, heap, q)
      requires !argChk ==> Positive(q) && InRange(q) && (poolTbl != null ==> Sized(tbl, heap, q))
      modifies this`poolTbl, this`tbl, pool, tbl.space.Keys`segAddrNextAvail, tbl.space.Keys`segSizeRem
      modifies tbl.links.Keys`segPrevPtr, tbl.links.Keys`segNextPtr, tbl.links.Keys`poolPrevPtr, tbl.links.Keys`poolNextPtr
      ensures old(poolTbl) != null ==> Valid()
      ensures if q.base != 0 && q.memSize == 0 then err == InvalidSegSize
              else if q.blkNbr == 0 then err == InvalidBlkNbr
              else if q.blkSize == 0 then err == InvalidBlkSize
              else if q.blkAlign == 0 then err == InvalidBlkAlign
              else if old(poolTbl) == null then err == HeapNotFound
              else if q.base != 0 && q.base + q.memSize > 0x1_0000_0000 then err == InvalidBlkAddr
              else
                && Decided(argChk, old(tbl), tbl, heap, pool, q, octetsReqd, err, r)
                && (err == InvalidSegOverlap <==> q.base != 0 && Clashes(old(tbl), q))
                && (err == None <==> Suffices(old(tbl), heap, q)) && !ArgumentErr(err)
      ensures ArgumentErr(err) ==> octetsReqd == 0 && tbl == old(tbl)
      ensures err == None ==>
                && BlksFrom(Start(old(tbl), heap, q), q, r)
                && pool.poolPtrs != null && fresh(pool.poolPtrs) && pool.poolPtrs[..] == r.blks
                && Configured(pool, q, PlanOf(argChk, old(tbl), heap, q)) && pool.segHeadPtr == Head(old(tbl), heap, pool, q)
                && pool.Shaped() && LaidOut(pool.AsLayout(), q.blkNbr)
      ensures err == None ==>
                && pool.typ == TypePool && pool.blkIx == pool.blkNbr == q.blkNbr
                && pool.blkSize == q.blkSize && pool.blkAlign == q.blkAlign
      ensures err != None ==> pool.typ == TypeNone
    {
      pool.Clr();
      err := CheckArgs(q);
      if err != None {
        return 0, err, Allocs(Cursor(0, 0), []);
      }
      octetsReqd, err, r := CreateExactly(pool, q);
    }

    /** Mem_HeapAlloc. */
    method HeapAlloc(size: Word, align: Word) returns (blk: Word, octetsReqd: Word, err: LibErr)
      requires Valid()
      requires argChk || (size > 0 && align > 0 && Pad(tbl.space[heap].cursor.next, align) + size < WORD)
      modifies this`tbl, heap`segAddrNextAvail, heap`segSizeRem
      ensures Valid()
      ensures size == 0 ==> err == InvalidMemSize
      ensures size > 0 && align == 0 ==> err == InvalidMemAlign
      ensures size > 0 && align > 0 ==> HeapAllocDecides(old(tbl).space[heap].cursor, size, align, octetsReqd, err)
      ensures err == None ==> Taken(old(tbl), tbl, heap, size, align, blk)
      ensures err != None ==> blk == 0 && tbl == old(tbl)
      ensures size > 0 && align > 0 ==>
                var h := old(tbl).space[heap].cursor;
                && (err == None <==> Fits(h, size, align)) && (err == None ==> octetsReqd == 0)
                && (err == HeapOvf <==> Pad(h.next, align) + size >= WORD) && (err == HeapOvf ==> octetsReqd == size)
                && (err == HeapEmpty <==> h.rem < Pad(h.next, align) + size < WORD)
                && (err == HeapEmpty ==> h.rem + octetsReqd == Pad(h.next, align) + size)
    {
      blk, octetsReqd := 0, 0;
      if argChk {
        if size < 1 {
          return 0, 0, InvalidMemSize;
        }
        if align < 1 {
          return 0, 0, InvalidMemAlign;
        }
      }
      assert SpaceOf(heap) == tbl.space[heap];
      octetsReqd, err := HeapCheck(argChk, heap.Seg(), size, align);
      if err == None {
        blk := Take(heap, size, align);
      }
    }

    /** Mem_SegGetSizeRem. */
    method SegGetSizeRem(pool: MemPool, align: Word) returns (sizeRem: Word, err: LibErr)
      requires Valid() && (pool in tbl.links || (argChk && pool.typ == TypeNone)) && (argChk || align > 0)
      ensures argChk && !(1 <= align <= 4096) ==> err == InvalidMemAlign
      ensures argChk && 1 <= align <= 4096 && pool.typ == TypeNone ==> err == InvalidPool
      ensures err == None ==> align > 0 && pool in tbl.links && tbl.links[pool].segHead in tbl.space
      ensures err == None ==> sizeRem == SizeRem(tbl.space[tbl.links[pool].segHead].cursor, align)
      ensures err != None ==> sizeRem == 0
      ensures err == None <==> !argChk || (1 <= align <= 4096 && pool.typ != TypeNone)
    {
      if argChk && (align < 1 || align > ALIGN_MAX) {
        return 0, InvalidMemAlign;
      }
      if argChk && pool.typ == TypeNone {
        return 0, InvalidPool;
      }
      HeadListed(tbl, pool);
      assert LinksOf(pool) == tbl.links[pool];
      var seg := pool.segHeadPtr;
      assert SpaceOf(seg) == tbl.space[seg];
      var sized := if seg.segAddr != 0 then seg else heap;
      sizeRem := sized.segSizeRem;
      if align > 1 {
        var segAddrMod := sized.segAddrNextAvail % align;
        var sizeRemMod := if segAddrMod > 0 then align - segAddrMod else 0;
        sizeRem := Wrap(sizeRem - sizeRemMod);
      }
      err := None;
    }
  }

  /** A request succeeds exactly when its padded size fits what the heap has left; a shortage is
      reported exactly, and a padded size beyond 32 bits as an overflow. */
  predicate HeapAllocDecides(heap: Cursor, size: Word, align: Word, octetsReqd: Word, err: LibErr)
    requires align > 0
  {
    var n := Pad(heap.next, align) + size;
    if n >= WORD then err == HeapOvf && octetsReqd == size
    else if n > heap.rem then err == HeapEmpty && octetsReqd == n - heap.rem
    else err == None && octetsReqd == 0
  }

  /** The size checks of Mem_HeapAlloc. */
  method HeapCheck(argChk: bool, heap: Cursor, size: Word, align: Word) returns (octetsReqd: Word, err: LibErr)
    requires size > 0 && align > 0 && (argChk || Pad(heap.next, align) + size < WORD)
    ensures HeapAllocDecides(heap, size, align, octetsReqd, err)
  {
    SingleBlk(argChk, heap.next, size, align);
    var sizeReq := SegCalcTotSize(argChk, heap.next, 1, size, align);
    if argChk && sizeReq < 1 {
      return size, HeapOvf;
    }
    if sizeReq > heap.rem {
      return sizeReq - heap.rem, HeapEmpty;
    }
    return 0, None;
  }

  /** The size calculation for one block, and its overflow. */
  lemma SingleBlk(argChk: bool, addr: Word, size: Word, align: Word)
    requires size > 0 && align > 0
    ensures var n, r := Pad(addr, align) + size, SegCalcTotSize(argChk, addr, 1, size, align);
            (n < WORD ==> r == n) && (argChk && n >= WORD ==> r == 0)
  {
    var a, offset := Pad(addr, align), Pad(size, align);
    assert Stride(size, align) * 0 == 0;
    CalcIsTotSize(argChk, addr, 1, size, align);
    WrapOnce(a + size);
    WrapSmall(0);
  }
}
