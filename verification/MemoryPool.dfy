/** UCOSIII/uC-LIB/lib_mem.c: getting and freeing the blocks of one memory pool. */
module MemoryPool {
  import opened WordArithmetic
  import opened SegmentArithmetic

  datatype LibErr =
    | None
    | NullPtr
    | InvalidMemSize
    | InvalidMemAlign
    | InvalidSegSize
    | InvalidSegOverlap
    | InvalidPool
    | InvalidBlkNbr
    | InvalidBlkSize
    | InvalidBlkAlign
    | InvalidBlkIx
    | InvalidBlkAddr
    | InvalidBlkAddrInPool
    | HeapNotFound
    | HeapEmpty
    | HeapOvf
    | SegEmpty
    | SegOvf
    | PoolEmpty
    | PoolFull

  datatype PoolType = TypeNone | TypeHeap | TypePool

  // ---------------------------------------------------------------- the address validator

  /** Where the blocks of a pool lie. */
  datatype Layout = Layout(start: Word, last: Word, blkSize: Word, blkAlign: Word)

  /** Mem_PoolBlkIsValidAddr. */
  predicate BlkIsValidAddr(l: Layout, blk: Word)
    requires l.blkAlign > 0 && l.blkSize > 0 && l.blkSize + Pad(l.blkSize, l.blkAlign) < WORD
  {
    && l.start <= blk <= l.last
    && (var first := Wrap(l.start + Pad(l.start, l.blkAlign));
        Wrap(blk - first) % (l.blkSize + Pad(l.blkSize, l.blkAlign)) == 0)
  }

  /** The layout that Mem_PoolCreate records for n blocks, all below the top of memory. */
  ghost predicate LaidOut(l: Layout, n: nat) {
    && l.blkAlign > 0 && l.blkSize > 0 && n > 0
    && l.last + 1 == l.start + TotSize(l.start, n, l.blkSize, l.blkAlign)
    && Stride(l.blkSize, l.blkAlign) < WORD
  }

  ghost predicate IsBlk(l: Layout, n: nat, blk: Word)
    requires l.blkAlign > 0
  {
    exists k :: 0 <= k < n && blk == BlkAddr(l.start, l.blkSize, l.blkAlign, k)
  }

  lemma BlkIsValid(l: Layout, n: nat, k: nat)
    requires LaidOut(l, n) && k < n
    ensures var b := BlkAddr(l.start, l.blkSize, l.blkAlign, k);
            b < WORD && b + l.blkSize <= l.last + 1 && BlkIsValidAddr(l, b)
  {
    var s := Stride(l.blkSize, l.blkAlign);
    var first := l.start + Pad(l.start, l.blkAlign);
    ProductMonotone(s, k, n - 1);
    WrapSmall(first);
    WrapSmall(s * k);
    ModUnique(s * k, s, k, 0);
  }

  function First(l: Layout): nat
    requires l.blkAlign > 0
  {
    l.start + Pad(l.start, l.blkAlign)
  }

  lemma FirstInRange(l: Layout, n: nat)
    requires LaidOut(l, n)
    ensures First(l) <= l.last && Stride(l.blkSize, l.blkAlign) >= l.blkAlign
  {
    ProductMonotone(Stride(l.blkSize, l.blkAlign), 0, n - 1);
    var s, a := Stride(l.blkSize, l.blkAlign), l.blkAlign;
    if s < a { ModUnique(s, a, 0, s); }
  }

  lemma BlkNotBelowFirst(l: Layout, n: nat, blk: Word)
    requires LaidOut(l, n) && blk < First(l)
    ensures !IsBlk(l, n, blk)
  {
    forall k: nat | k < n ensures blk != BlkAddr(l.start, l.blkSize, l.blkAlign, k) {
      ProductMonotone(Stride(l.blkSize, l.blkAlign), 0, k);
    }
  }

  lemma QuotientBelow(s: nat, k: nat, n: nat, size: nat)
    requires n > 0 && s * k < s * (n - 1) + size && size <= s
    ensures k < n
  {
    ProductMonotone(s, n, k);
    assert s * n == s * (n - 1) + s;
  }

  lemma MultipleInPool(d: nat, s: nat, n: nat, size: nat) returns (k: nat)
    requires n > 0 && 0 < size <= s && d % s == 0 && d < s * (n - 1) + size
    ensures k < n && d == s * k
  {
    k := d / s;
    QuotientBelow(s, k, n, size);
  }

  /** From the first block on the validator accepts blocks and nothing else. */
  lemma ValidFromFirst(l: Layout, n: nat, blk: Word)
    requires LaidOut(l, n) && First(l) <= blk && BlkIsValidAddr(l, blk)
    ensures IsBlk(l, n, blk)
  {
    WrapSmall(First(l));
    WrapSmall(blk - First(l));
    var k := MultipleInPool(blk - First(l), Stride(l.blkSize, l.blkAlign), n, l.blkSize);
    assert blk == BlkAddr(l.start, l.blkSize, l.blkAlign, k);
  }

  /** Before the first block the difference wraps; the validator then accepts an address exactly
      when the stride happens to divide the wrapped difference. */
  lemma ValidBeforeFirst(l: Layout, n: nat, blk: Word)
    requires LaidOut(l, n) && l.start <= blk < First(l)
    ensures BlkIsValidAddr(l, blk) <==> First(l) - blk == WORD % Stride(l.blkSize, l.blkAlign)
  {
    FirstInRange(l, n);
    var d, s := First(l) - blk, Stride(l.blkSize, l.blkAlign);
    WrapSmall(First(l));
    ModUnique(-d, WORD, -1, WORD - d);
    ResidueIs(WORD, d, s);
  }

  lemma ResidueIs(w: nat, d: nat, s: nat)
    requires d < s && d <= w
    ensures (w - d) % s == 0 <==> w % s == d
  {
    if (w - d) % s == 0 {
      ModUnique(w, s, (w - d) / s, d);
    }
    if w % s == d {
      ModUnique(w - d, s, w / s, 0);
    }
  }

  /** The layouts that fool the validator: it accepts an address inside the leading padding. */
  predicate PaddingFools(l: Layout)
    requires l.blkAlign > 0 && l.blkSize > 0
  {
    1 <= WORD % Stride(l.blkSize, l.blkAlign) <= Pad(l.start, l.blkAlign)
  }

  predicate Fooled(l: Layout, blk: Word)
    requires l.blkAlign > 0 && l.blkSize > 0
  {
    PaddingFools(l) && blk == First(l) - WORD % Stride(l.blkSize, l.blkAlign)
  }

  lemma ValidIffBlkOrFooled(l: Layout, n: nat, blk: Word)
    requires LaidOut(l, n)
    ensures BlkIsValidAddr(l, blk) <==> (IsBlk(l, n, blk) || Fooled(l, blk))
  {
    FirstInRange(l, n);
    if blk < First(l) {
      BlkNotBelowFirst(l, n, blk);
      if l.start <= blk { ValidBeforeFirst(l, n, blk); }
    } else if BlkIsValidAddr(l, blk) {
      ValidFromFirst(l, n, blk);
    } else if IsBlk(l, n, blk) {
      var k :| 0 <= k < n && blk == BlkAddr(l.start, l.blkSize, l.blkAlign, k);
      BlkIsValid(l, n, k);
    }
  }

  /** The validator accepts exactly the n blocks if and only if the padding does not fool it. */
  lemma ValidatorExact(l: Layout, n: nat)
    requires LaidOut(l, n)
    ensures (forall blk: Word :: BlkIsValidAddr(l, blk) <==> IsBlk(l, n, blk)) <==> !PaddingFools(l)
  {
    forall blk: Word ensures BlkIsValidAddr(l, blk) <==> (IsBlk(l, n, blk) || Fooled(l, blk)) {
      ValidIffBlkOrFooled(l, n, blk);
    }
    if PaddingFools(l) {
      FirstInRange(l, n);
      var blk := First(l) - WORD % Stride(l.blkSize, l.blkAlign);
      BlkNotBelowFirst(l, n, blk);
      assert BlkIsValidAddr(l, blk);
    }
  }

  lemma ShiftedIndex(s: nat, j: nat, k: nat, d: nat)
    requires s > 0
    ensures s * j == d + s * k <==> d % s == 0 && j == k + d / s
  {
    if s * j == d + s * k {
      assert d == (j - k) * s;
      ModUnique(d, s, j - k, 0);
    }
    if d % s == 0 && j == k + d / s {
      assert s * j == s * k + s * (d / s);
    }
  }

  lemma LaterIsBlk(l: Layout, n: nat, shift: nat, k: nat, blk: Word)
    requires l.blkAlign > 0 && l.blkSize > 0 && blk == BlkAddr(l.start + shift, l.blkSize, l.blkAlign, k)
    ensures var s, d := Stride(l.blkSize, l.blkAlign), Displacement(l.start, shift, l.blkAlign);
            IsBlk(l, n, blk) <==> d % s == 0 && k + d / s < n
  {
    var s, d := Stride(l.blkSize, l.blkAlign), Displacement(l.start, shift, l.blkAlign);
    if IsBlk(l, n, blk) {
      var j :| 0 <= j < n && blk == BlkAddr(l.start, l.blkSize, l.blkAlign, j);
      ShiftedIndex(s, j, k, d);
    }
    if d % s == 0 && k + d / s < n {
      ShiftedIndex(s, k + d / s, k, d);
      assert blk == BlkAddr(l.start, l.blkSize, l.blkAlign, k + d / s);
    }
  }

  /** When the blocks lie shift octets behind where the layout has them start, the validator accepts
      those among them that the displacement moves onto a block of the layout, and no others. */
  lemma LaterValid(l: Layout, n: nat, shift: nat, k: nat, blk: Word)
    requires LaidOut(l, n) && k < n && blk == BlkAddr(l.start + shift, l.blkSize, l.blkAlign, k)
    ensures var s, d := Stride(l.blkSize, l.blkAlign), Displacement(l.start, shift, l.blkAlign);
            BlkIsValidAddr(l, blk) <==> d % s == 0 && k + d / s < n
  {
    LaterIsBlk(l, n, shift, k, blk);
    ProductMonotone(Stride(l.blkSize, l.blkAlign), 0, k);
    ValidIffBlkOrFooled(l, n, blk);
  }

  /** An alignment that divides 2^32, that is a power of two, is never fooled. */
  lemma PowerOfTwoExact(l: Layout)
    requires l.blkAlign > 0 && l.blkSize > 0 && WORD % l.blkAlign == 0
    ensures !PaddingFools(l)
  {
    var a, s := l.blkAlign, Stride(l.blkSize, l.blkAlign);
    var p, q, r := WORD / a, WORD / s, s / a;
    var d := WORD % s;
    assert s == r * a;
    assert d == p * a - (q * r) * a == (p - q * r) * a;
    MultipleMod(p - q * r, a);
    if d < a { ModUnique(d, a, 0, d); }
  }

  /** With an alignment of three the validator accepts the unaligned start of a pool. */
  lemma AlignThreeFooled()
    ensures var l := Layout(0x2000_0000, 0x2000_0003, 3, 3);
            LaidOut(l, 1) && BlkIsValidAddr(l, 0x2000_0000) && !IsBlk(l, 1, 0x2000_0000)
  {
    var l := Layout(0x2000_0000, 0x2000_0003, 3, 3);
    assert Pad(0x2000_0000, 3) == 1 && Pad(3, 3) == 0;
    ValidBeforeFirst(l, 1, 0x2000_0000);
    BlkNotBelowFirst(l, 1, 0x2000_0000);
  }

  // ---------------------------------------------------------------- the pool as a value

  /** The part of MEM_POOL that getting and freeing use: PoolPtrs[..BlkNbr] and BlkIx. The
      pointers before BlkIx are free, the others are in use. */
  datatype Pool = Pool(ptrs: seq<Word>, ix: nat)

  datatype Got = Got(pool: Pool, blk: Word, err: LibErr)

  datatype Freed = Freed(pool: Pool, err: LibErr)

  /** Mem_PoolBlkGet on a pool whose type and block size have been checked. */
  function Get(p: Pool): Got {
    if p.ix < 1 then Got(p, 0, PoolEmpty)
    else if p.ix > |p.ptrs| then Got(p, 0, InvalidBlkIx)
    else Got(p.(ix := p.ix - 1), p.ptrs[p.ix - 1], None)
  }

  /** The first index from lo on at which blk is found, or the length. */
  function Find(ptrs: seq<Word>, lo: nat, blk: Word): (i: nat)
    requires lo <= |ptrs|
    ensures lo <= i <= |ptrs|
    ensures i < |ptrs| ==> ptrs[i] == blk
    ensures blk !in ptrs[lo..i]
    decreases |ptrs| - lo
  {
    if lo == |ptrs| || ptrs[lo] == blk then lo
    else
      var i := Find(ptrs, lo + 1, blk);
      assert ptrs[lo..i] == [ptrs[lo]] + ptrs[lo + 1..i];
      i
  }

  /** The end of Mem_PoolBlkFree: the slot where blk was found takes the first used block, and
      blk becomes the last free one. When blk is not found only the checked build gives up. */
  function Release(argChk: bool, p: Pool, blk: Word): Freed {
    if p.ix >= |p.ptrs| then Freed(p, PoolFull)
    else
      var i := Find(p.ptrs, p.ix, blk);
      if i < |p.ptrs| then Freed(Pool(Swapped(p.ptrs, i, p.ix), p.ix + 1), None)
      else if argChk then Freed(p, InvalidPool)
      else Freed(Pool(p.ptrs[p.ix := blk], p.ix + 1), None)
  }

  /** Mem_PoolBlkFree on a pool whose type has been checked. */
  function Free(argChk: bool, l: Layout, p: Pool, blk: Word): Freed
    requires argChk ==> l.blkAlign > 0 && l.blkSize > 0 && l.blkSize + Pad(l.blkSize, l.blkAlign) < WORD
    requires p.ix <= |p.ptrs|
  {
    if argChk && blk == 0 then Freed(p, NullPtr)
    else if argChk && !BlkIsValidAddr(l, blk) then Freed(p, InvalidBlkAddr)
    else if argChk && blk in p.ptrs[..p.ix] then Freed(p, InvalidBlkAddrInPool)
    else Release(argChk, p, blk)
  }

  ghost predicate NoDup(s: seq<Word>) { forall i, j :: 0 <= i < j < |s| ==> s[i] != s[j] }

  ghost function Elems(s: seq<Word>): set<Word> { set x | x in s }

  /** The n blocks of a layout, as Mem_PoolCreate stores them. */
  ghost function Blocks(l: Layout, n: nat): (s: seq<Word>)
    requires LaidOut(l, n)
    ensures |s| == n
  {
    seq(n, k requires 0 <= k < n => Blk(l, n, k))
  }

  ghost function Blk(l: Layout, n: nat, k: nat): Word
    requires LaidOut(l, n) && k < n
  {
    BlkIsValid(l, n, k);
    BlkAddr(l.start, l.blkSize, l.blkAlign, k)
  }

  /** The pointers are a permutation of the blocks, and held is exactly what is in use. */
  ghost predicate Conserved(p: Pool, blocks: seq<Word>, held: set<Word>) {
    && p.ix <= |p.ptrs| == |blocks|
    && NoDup(p.ptrs) && Elems(p.ptrs) == Elems(blocks)
    && held == Elems(p.ptrs[p.ix..])
  }

  lemma GetConserves(p: Pool, blocks: seq<Word>, held: set<Word>)
    requires Conserved(p, blocks, held)
    ensures var g := Get(p);
            && (g.err == None <==> held != Elems(blocks))
            && (g.err == None ==> g.blk in blocks && g.blk !in held && Conserved(g.pool, blocks, held + {g.blk}))
            && (g.err != None ==> g.err == PoolEmpty && g.pool == p)
  {
    if p.ix > 0 {
      assert p.ptrs[p.ix - 1..] == [p.ptrs[p.ix - 1]] + p.ptrs[p.ix..];
      assert p.ptrs[p.ix - 1] in Elems(p.ptrs);
    } else {
      assert p.ptrs[0..] == p.ptrs;
    }
  }

  function Swapped(s: seq<Word>, i: nat, j: nat): (t: seq<Word>)
    requires i < |s| && j < |s|
    ensures |t| == |s|
  {
    s[i := s[j]][j := s[i]]
  }

  lemma SwapKeepsElems(s: seq<Word>, i: nat, j: nat)
    requires i < |s| && j < |s|
    ensures Elems(Swapped(s, i, j)) == Elems(s)
  {
    var t := Swapped(s, i, j);
    forall k | 0 <= k < |s| ensures s[k] in t && t[k] in s {
      assert t[if k == i then j else if k == j then i else k] == s[k];
    }
  }

  lemma SwapConserves(p: Pool, i: nat, blocks: seq<Word>, held: set<Word>)
    requires Conserved(p, blocks, held) && p.ix <= i < |p.ptrs|
    ensures Conserved(Pool(Swapped(p.ptrs, i, p.ix), p.ix + 1), blocks, held - {p.ptrs[i]})
  {
    var q := Swapped(p.ptrs, i, p.ix);
    SwapKeepsElems(p.ptrs, i, p.ix);
    SwapTail(p.ptrs, i, p.ix);
    assert NoDup(q);
  }

  lemma SwapTail(s: seq<Word>, i: nat, j: nat)
    requires NoDup(s) && j <= i < |s|
    ensures Elems(Swapped(s, i, j)[j + 1..]) == Elems(s[j..]) - {s[i]}
  {
    var t := Swapped(s, i, j);
    forall k | j <= k < |s| && k != i ensures s[k] in t[j + 1..] {
      assert t[j + 1..][(if k == j then i else k) - (j + 1)] == s[k];
    }
    forall k | j + 1 <= k < |s| ensures t[k] in s[j..] && t[k] != s[i] {
      assert s[j..][(if k == i then j else k) - j] == t[k];
    }
  }

  lemma FindHeld(p: Pool, blocks: seq<Word>, held: set<Word>, blk: Word)
    requires Conserved(p, blocks, held)
    ensures Find(p.ptrs, p.ix, blk) < |p.ptrs| <==> blk in held
  {
    var i := Find(p.ptrs, p.ix, blk);
    if i == |p.ptrs| {
      assert p.ptrs[p.ix..i] == p.ptrs[p.ix..];
    } else {
      assert p.ptrs[p.ix..][i - p.ix] == blk;
    }
  }

  /** In the checked build, freeing succeeds exactly for a block in use, and anything else that
      is passed to it changes nothing. */
  lemma FreeConserves(l: Layout, n: nat, p: Pool, held: set<Word>, blk: Word)
    requires LaidOut(l, n) && l.start > 0 && Conserved(p, Blocks(l, n), held)
    ensures var f := Free(true, l, p, blk);
            && (f.err == None <==> blk in held)
            && (f.err == None ==> Conserved(f.pool, Blocks(l, n), held - {blk}))
            && (f.err != None ==> f.pool == p)
  {
    FindHeld(p, Blocks(l, n), held, blk);
    if blk in held {
      HeldIsBlk(l, n, p, held, blk);
      SwapConserves(p, Find(p.ptrs, p.ix, blk), Blocks(l, n), held);
    }
  }

  lemma HeldIsBlk(l: Layout, n: nat, p: Pool, held: set<Word>, blk: Word)
    requires LaidOut(l, n) && l.start > 0 && Conserved(p, Blocks(l, n), held) && blk in held
    ensures blk != 0 && BlkIsValidAddr(l, blk) && blk !in p.ptrs[..p.ix]
  {
    assert blk in Elems(p.ptrs);
    var k :| 0 <= k < n && Blocks(l, n)[k] == blk;
    BlkIsValid(l, n, k);
  }

  /** Every block that passes the validation is free or in use, unless it is the fooled address. */
  lemma ValidIsKnown(l: Layout, n: nat, p: Pool, held: set<Word>, blk: Word)
    requires LaidOut(l, n) && Conserved(p, Blocks(l, n), held) && BlkIsValidAddr(l, blk)
    ensures blk in held || blk in p.ptrs[..p.ix] || Fooled(l, blk)
  {
    ValidIffBlkOrFooled(l, n, blk);
    if !Fooled(l, blk) {
      var k :| 0 <= k < n && blk == BlkAddr(l.start, l.blkSize, l.blkAlign, k);
      assert Blocks(l, n)[k] == blk;
      assert blk in Elems(Blocks(l, n));
      var j :| 0 <= j < n && p.ptrs[j] == blk;
      assert if j < p.ix then p.ptrs[..p.ix][j] == blk else p.ptrs[p.ix..][j - p.ix] == blk;
    }
  }

  /** The fooled address is no block, so it is neither free nor in use. */
  lemma FooledIsUnknown(l: Layout, n: nat, p: Pool, held: set<Word>, blk: Word)
    requires LaidOut(l, n) && Conserved(p, Blocks(l, n), held) && Fooled(l, blk)
    ensures BlkIsValidAddr(l, blk) && blk !in held && blk !in p.ptrs[..p.ix]
  {
    ValidIffBlkOrFooled(l, n, blk);
    BlkNotBelowFirst(l, n, blk);
    OnlyBlksListed(l, n, blk);
    assert blk !in Elems(p.ptrs);
  }

  lemma OnlyBlksListed(l: Layout, n: nat, blk: Word)
    requires LaidOut(l, n)
    ensures blk in Elems(Blocks(l, n)) ==> IsBlk(l, n, blk)
  {
    if blk in Elems(Blocks(l, n)) {
      var k :| 0 <= k < n && Blocks(l, n)[k] == blk;
      assert blk == BlkAddr(l.start, l.blkSize, l.blkAlign, k);
    }
  }

  /** The pool has the blocks of the layout, those behind the free prefix in use. */
  ghost predicate Intact(l: Layout, p: Pool) {
    && LaidOut(l, |p.ptrs|) && l.start > 0
    && p.ix <= |p.ptrs| && Conserved(p, Blocks(l, |p.ptrs|), Elems(p.ptrs[p.ix..]))
  }

  /** What the end of a free does and reports, wherever the block is found. */
  lemma ReleaseIs(argChk: bool, p: Pool, blk: Word)
    requires p.ix <= |p.ptrs|
    ensures p.ix == |p.ptrs| ==> Release(argChk, p, blk) == Freed(p, PoolFull)
    ensures p.ix < |p.ptrs| && blk !in p.ptrs[p.ix..] ==>
              Release(argChk, p, blk) ==
              if argChk then Freed(p, InvalidPool) else Freed(Pool(p.ptrs[p.ix := blk], p.ix + 1), None)
    ensures blk in p.ptrs[p.ix..] ==>
              exists i :: p.ix <= i < |p.ptrs| && p.ptrs[i] == blk && blk !in p.ptrs[p.ix..i]
                          && Release(argChk, p, blk) == Freed(Pool(p.ptrs[i := p.ptrs[p.ix]][p.ix := blk], p.ix + 1), None)
  {
    var i := Find(p.ptrs, p.ix, blk);
    if i < |p.ptrs| {
      assert p.ptrs[p.ix..][i - p.ix] == blk;
    } else {
      assert p.ptrs[p.ix..i] == p.ptrs[p.ix..];
    }
  }

  /** The error of every checked free: success exactly for a block in use, and each error exactly
      for its addresses. */
  lemma FreeErrors(l: Layout, n: nat, p: Pool, held: set<Word>, blk: Word)
    requires LaidOut(l, n) && l.start > 0 && Conserved(p, Blocks(l, n), held)
    ensures Free(true, l, p, blk).err ==
            if blk == 0 then NullPtr
            else if blk in held then None
            else if IsBlk(l, n, blk) then InvalidBlkAddrInPool
            else if !Fooled(l, blk) then InvalidBlkAddr
            else if held == {} then PoolFull
            else InvalidPool
  {
    ValidIffBlkOrFooled(l, n, blk);
    FreeConserves(l, n, p, held, blk);
    FindHeld(p, Blocks(l, n), held, blk);
    NoneHeld(p, Blocks(l, n), held);
    if blk in held {
      HeldIsBlk(l, n, p, held, blk);
    } else if Fooled(l, blk) {
      FooledIsUnknown(l, n, p, held, blk);
      BlkNotBelowFirst(l, n, blk);
    } else if BlkIsValidAddr(l, blk) {
      ValidIsKnown(l, n, p, held, blk);
    }
  }

  lemma NoneHeld(p: Pool, blocks: seq<Word>, held: set<Word>)
    requires Conserved(p, blocks, held)
    ensures held == {} <==> p.ix == |p.ptrs|
  {
    if p.ix < |p.ptrs| { assert p.ptrs[p.ix..][0] in held; }
  }

  predicate Late(err: LibErr) { err == PoolFull || err == InvalidPool }

  /** The last two error branches of the checked free are taken for exactly one address, and only
      if the padding fools the validator. */
  lemma LateErrorsOnlyFooled(l: Layout, n: nat, p: Pool, held: set<Word>, blk: Word)
    requires LaidOut(l, n) && l.start > 0 && Conserved(p, Blocks(l, n), held)
    ensures Late(Free(true, l, p, blk).err) <==> Fooled(l, blk)
  {
    FindHeld(p, Blocks(l, n), held, blk);
    if Fooled(l, blk) {
      FooledIsUnknown(l, n, p, held, blk);
    } else if BlkIsValidAddr(l, blk) {
      ValidIsKnown(l, n, p, held, blk);
    }
  }

  /** So they are never taken if and only if the padding does not fool the validator. */
  lemma LateErrorsUnreachable(l: Layout, n: nat, p: Pool, held: set<Word>)
    requires LaidOut(l, n) && l.start > 0 && Conserved(p, Blocks(l, n), held)
    ensures (forall blk: Word :: !Late(Free(true, l, p, blk).err)) <==> !PaddingFools(l)
  {
    forall blk: Word ensures Late(Free(true, l, p, blk).err) <==> Fooled(l, blk) {
      LateErrorsOnlyFooled(l, n, p, held, blk);
    }
    if PaddingFools(l) {
      FirstInRange(l, n);
      assert Fooled(l, First(l) - WORD % Stride(l.blkSize, l.blkAlign));
    }
  }

  /** The unchecked free keeps the pool a permutation exactly when the block is in use or the
      pool is full; otherwise it overwrites the slot of another block. */
  lemma UncheckedFreeConserves(p: Pool, blocks: seq<Word>, held: set<Word>, blk: Word)
    requires Conserved(p, blocks, held)
    ensures Conserved(Release(false, p, blk).pool, blocks, held - {blk}) <==> blk in held || p.ix == |p.ptrs|
  {
    FindHeld(p, blocks, held, blk);
    if blk in held {
      SwapConserves(p, Find(p.ptrs, p.ix, blk), blocks, held);
    } else if p.ix < |p.ptrs| {
      var lost, rest := p.ptrs[p.ix], p.ptrs[p.ix := blk][p.ix + 1..];
      assert p.ptrs[p.ix..][0] == lost;
      assert lost in held - {blk} && lost !in rest;
    }
  }

  // ---------------------------------------------------------------- whole runs

  datatype Op = OpGet(size: Word) | OpFree(blk: Word)

  datatype Outcome = Outcome(pool: Pool, blk: Word, err: LibErr)

  /** One call on a pool in the checked build. */
  function Step(l: Layout, p: Pool, op: Op): Outcome
    requires l.blkAlign > 0 && l.blkSize > 0 && l.blkSize + Pad(l.blkSize, l.blkAlign) < WORD && p.ix <= |p.ptrs|
  {
    match op
    case OpGet(size) =>
      if size < 1 || size > l.blkSize then Outcome(p, 0, InvalidBlkSize)
      else var g := Get(p); Outcome(g.pool, g.blk, g.err)
    case OpFree(blk) =>
      var f := Free(true, l, p, blk); Outcome(f.pool, 0, f.err)
  }

  /** The pool after a run, and the ledger that its caller can keep: blocks are added when they
      are got and removed when they are freed, as the error codes say. */
  datatype Ledger = Ledger(pool: Pool, held: set<Word>)

  ghost function Run(l: Layout, n: nat, ops: seq<Op>): (r: Ledger)
    requires LaidOut(l, n) && l.start > 0
    ensures Conserved(r.pool, Blocks(l, n), r.held)
  {
    if ops == [] then
      CreatedConserved(l, n);
      Ledger(Pool(Blocks(l, n), n), {})
    else
      var r, op := Run(l, n, ops[..|ops| - 1]), ops[|ops| - 1];
      var o := Step(l, r.pool, op);
      StepConserves(l, n, r.pool, r.held, op);
      Ledger(o.pool, HeldAfter(r.held, op, o))
  }

  function HeldAfter(held: set<Word>, op: Op, o: Outcome): set<Word> {
    if o.err != None then held else if op.OpGet? then held + {o.blk} else held - {op.blk}
  }

  /** A pool with nothing in use. */
  lemma AllFreeConserved(blocks: seq<Word>)
    requires NoDup(blocks)
    ensures Conserved(Pool(blocks, |blocks|), blocks, {})
  {
  }

  lemma FormDistinct(blks: seq<Word>, start: nat, size: nat, align: nat)
    requires align > 0 && size > 0 && FollowForm(blks, start, size, align)
    ensures NoDup(blks)
  {
    forall j, k | 0 <= j < k < |blks| ensures blks[j] != blks[k] {
      var s := Stride(size, align);
      assert s * k == s * j + s * (k - j);
      ProductMonotone(s, 1, k - j);
    }
  }

  lemma CreatedConserved(l: Layout, n: nat)
    requires LaidOut(l, n)
    ensures Conserved(Pool(Blocks(l, n), n), Blocks(l, n), {})
  {
    FormDistinct(Blocks(l, n), l.start, l.blkSize, l.blkAlign);
    AllFreeConserved(Blocks(l, n));
  }

  /** A run begins with the blocks that lie as recorded, and no others. */
  lemma StartsRun(l: Layout, blks: seq<Word>)
    requires LaidOut(l, |blks|) && l.start > 0
    ensures Pool(blks, |blks|) == Run(l, |blks|, []).pool <==> FollowForm(blks, l.start, l.blkSize, l.blkAlign)
  {
    if FollowForm(blks, l.start, l.blkSize, l.blkAlign) { assert blks == Blocks(l, |blks|); }
  }

  /** When they lie further up, the checked build can free a block that is in use exactly when the
      displacement moves it onto a block of the recorded layout. */
  lemma LaterFreed(l: Layout, shift: nat, blks: seq<Word>, p: Pool, held: set<Word>, k: nat)
    requires LaidOut(l, |blks|) && l.start > 0 && k < |blks| && Conserved(p, blks, held)
    requires FollowForm(blks, l.start + shift, l.blkSize, l.blkAlign)
    ensures var s, d := Stride(l.blkSize, l.blkAlign), Displacement(l.start, shift, l.blkAlign);
            Free(true, l, p, blks[k]).err == None <==> blks[k] in held && d % s == 0 && k + d / s < |blks|
  {
    LaterValid(l, |blks|, shift, k, blks[k]);
    ProductMonotone(Stride(l.blkSize, l.blkAlign), 0, k);
    FindHeld(p, blks, held, blks[k]);
  }

  /** So when they lie further up by more than the padding, the last one can never be freed. */
  lemma LastBlkLost(l: Layout, shift: nat, blks: seq<Word>, p: Pool)
    requires LaidOut(l, |blks|) && p.ix <= |p.ptrs| && shift > Pad(l.start, l.blkAlign)
    requires l.start > 0 && FollowForm(blks, l.start + shift, l.blkSize, l.blkAlign)
    ensures Free(true, l, p, blks[|blks| - 1]) == Freed(p, InvalidBlkAddr)
  {
    var s, d := Stride(l.blkSize, l.blkAlign), Displacement(l.start, shift, l.blkAlign);
    LaterValid(l, |blks|, shift, |blks| - 1, blks[|blks| - 1]);
    ProductMonotone(s, 0, |blks| - 1);
    if d % s == 0 { ShiftedIndex(s, d / s, 0, d); }
  }

  lemma StepConserves(l: Layout, n: nat, p: Pool, held: set<Word>, op: Op)
    requires LaidOut(l, n) && l.start > 0 && Conserved(p, Blocks(l, n), held)
    ensures var o := Step(l, p, op); Conserved(o.pool, Blocks(l, n), HeldAfter(held, op, o))
  {
    match op
    case OpGet(_) => GetConserves(p, Blocks(l, n), held);
    case OpFree(blk) => FreeConserves(l, n, p, held, blk);
  }

  lemma {:induction false} ElemsCount(s: seq<Word>)
    requires NoDup(s)
    ensures |Elems(s)| == |s|
  {
    if s != [] {
      var t := s[..|s| - 1];
      ElemsCount(t);
      assert Elems(s) == Elems(t) + {s[|s| - 1]};
    }
  }

  lemma HeldCount(p: Pool, blocks: seq<Word>, held: set<Word>)
    requires Conserved(p, blocks, held)
    ensures held <= Elems(blocks) && |held| == |blocks| - p.ix
  {
    ElemsCount(p.ptrs[p.ix..]);
    forall x | x in held ensures x in Elems(p.ptrs) {
      assert x in p.ptrs[p.ix..];
    }
  }

  /** A get succeeds exactly while blocks are left, with a block that nobody holds. */
  ghost predicate ServesGet(l: Layout, p: Pool, blocks: seq<Word>, held: set<Word>, size: Word)
    requires l.blkAlign > 0 && l.blkSize > 0 && l.blkSize + Pad(l.blkSize, l.blkAlign) < WORD && p.ix <= |p.ptrs|
  {
    var g := Step(l, p, OpGet(size));
    && (1 <= size <= l.blkSize ==> g.err == if |held| < |blocks| then None else PoolEmpty)
    && (!(1 <= size <= l.blkSize) ==> g.err == InvalidBlkSize)
    && (g.err == None ==> g.blk in blocks && g.blk !in held)
    && (g.err != None ==> g.pool == p)
  }

  /** A free succeeds exactly for a held block. */
  ghost predicate ServesFree(l: Layout, p: Pool, held: set<Word>, blk: Word)
    requires l.blkAlign > 0 && l.blkSize > 0 && l.blkSize + Pad(l.blkSize, l.blkAlign) < WORD && p.ix <= |p.ptrs|
  {
    var f := Step(l, p, OpFree(blk));
    && (f.err == None <==> blk in held)
    && (f.err != None ==> f.pool == p)
  }

  lemma ConservedServesGet(l: Layout, p: Pool, blocks: seq<Word>, held: set<Word>, size: Word)
    requires l.blkAlign > 0 && l.blkSize > 0 && l.blkSize + Pad(l.blkSize, l.blkAlign) < WORD
    requires Conserved(p, blocks, held)
    ensures ServesGet(l, p, blocks, held, size) && held <= Elems(blocks) && |held| == |blocks| - p.ix
  {
    HeldCount(p, blocks, held);
    GetConserves(p, blocks, held);
  }

  lemma ConservedServesFree(l: Layout, n: nat, p: Pool, held: set<Word>, blk: Word)
    requires LaidOut(l, n) && l.start > 0 && Conserved(p, Blocks(l, n), held)
    ensures ServesFree(l, p, held, blk)
  {
    FreeConserves(l, n, p, held, blk);
  }

  /** After any run of gets and frees with arbitrary arguments: the blocks are conserved, the held
      ones are those behind the free prefix, as many as are missing from it, a get succeeds exactly
      while blocks are left and returns a block that nobody holds, a free succeeds exactly for a held
      block, and a call that fails changes nothing. */
  lemma RunConserves(l: Layout, n: nat, ops: seq<Op>, size: Word, blk: Word)
    requires LaidOut(l, n) && l.start > 0
    ensures var r, blocks := Run(l, n, ops), Blocks(l, n);
            && Conserved(r.pool, blocks, r.held) && r.held <= Elems(blocks) && |r.held| == n - r.pool.ix
            && Intact(l, r.pool) && r.held == Elems(r.pool.ptrs[r.pool.ix..])
            && ServesGet(l, r.pool, blocks, r.held, size) && ServesFree(l, r.pool, r.held, blk)
  {
    var r := Run(l, n, ops);
    ConservedServesGet(l, r.pool, Blocks(l, n), r.held, size);
    ConservedServesFree(l, n, r.pool, r.held, blk);
  }

  // ---------------------------------------------------------------- runs of the unchecked build

  /** One call on a pool in the unchecked build, which ignores the size that is asked for and where
      the pool has its blocks recorded. */
  function UncheckedStep(p: Pool, op: Op): (o: Outcome)
    requires p.ix <= |p.ptrs|
    ensures o.pool.ix <= |o.pool.ptrs|
  {
    match op
    case OpGet(_) => var g := Get(p); Outcome(g.pool, g.blk, g.err)
    case OpFree(blk) => var f := Release(false, p, blk); Outcome(f.pool, 0, f.err)
  }

  /** A run of the unchecked build on any blocks, whatever its caller does. */
  ghost function UncheckedRun(blocks: seq<Word>, ops: seq<Op>): (r: Ledger)
    ensures r.pool.ix <= |r.pool.ptrs|
  {
    if ops == [] then Ledger(Pool(blocks, |blocks|), {})
    else
      var r, op := UncheckedRun(blocks, ops[..|ops| - 1]), ops[|ops| - 1];
      var o := UncheckedStep(r.pool, op);
      Ledger(o.pool, HeldAfter(r.held, op, o))
  }

  /** The caller frees only blocks that it holds. */
  ghost predicate FreesHeld(blocks: seq<Word>, ops: seq<Op>) {
    ops == [] ||
    var before, op := ops[..|ops| - 1], ops[|ops| - 1];
    FreesHeld(blocks, before) && (op.OpFree? ==> op.blk in UncheckedRun(blocks, before).held)
  }

  /** The caller asks for sizes that a block has. */
  predicate AsksFitting(l: Layout, ops: seq<Op>) {
    forall op :: op in ops && op.OpGet? ==> 1 <= op.size <= l.blkSize
  }

  lemma UncheckedStepConserves(p: Pool, blocks: seq<Word>, held: set<Word>, op: Op)
    requires Conserved(p, blocks, held) && (op.OpFree? ==> op.blk in held)
    ensures var o := UncheckedStep(p, op);
            Conserved(o.pool, blocks, HeldAfter(held, op, o)) && (op.OpFree? ==> o.err == None)
  {
    match op
    case OpGet(_) => GetConserves(p, blocks, held);
    case OpFree(blk) =>
      FindHeld(p, blocks, held, blk);
      UncheckedFreeConserves(p, blocks, held, blk);
  }

  /** After any run on any distinct blocks whose caller frees only what it holds, the unchecked build
      has conserved the blocks too; the next get succeeds exactly while blocks are left, with a block
      that nobody holds, and every free of a held block succeeds. */
  lemma {:induction false} UncheckedRunConserves(blocks: seq<Word>, ops: seq<Op>, size: Word, blk: Word)
    requires NoDup(blocks) && FreesHeld(blocks, ops)
    ensures var r := UncheckedRun(blocks, ops);
            && Conserved(r.pool, blocks, r.held) && |r.held| == |blocks| - r.pool.ix
            && (var g := UncheckedStep(r.pool, OpGet(size));
                (g.err == None <==> |r.held| < |blocks|) && (g.err == None ==> g.blk in blocks && g.blk !in r.held))
            && (blk in r.held ==> UncheckedStep(r.pool, OpFree(blk)).err == None)
    decreases ops
  {
    if ops == [] {
      AllFreeConserved(blocks);
    } else {
      var before, op := ops[..|ops| - 1], ops[|ops| - 1];
      UncheckedRunConserves(blocks, before, size, blk);
      UncheckedStepConserves(UncheckedRun(blocks, before).pool, blocks, UncheckedRun(blocks, before).held, op);
    }
    var r := UncheckedRun(blocks, ops);
    HeldCount(r.pool, blocks, r.held);
    GetConserves(r.pool, blocks, r.held);
    if blk in r.held { UncheckedStepConserves(r.pool, blocks, r.held, OpFree(blk)); }
  }

  /** A caller that frees only what it holds and asks only for sizes that a block has cannot tell
      the unchecked build from the checked one. */
  lemma {:induction false} BuildsAgree(l: Layout, n: nat, ops: seq<Op>)
    requires LaidOut(l, n) && l.start > 0 && FreesHeld(Blocks(l, n), ops) && AsksFitting(l, ops)
    ensures UncheckedRun(Blocks(l, n), ops) == Run(l, n, ops)
    decreases ops
  {
    if ops != [] {
      var before, op := ops[..|ops| - 1], ops[|ops| - 1];
      assert op in ops;
      BuildsAgree(l, n, before);
      StepsAgree(l, n, Run(l, n, before).pool, Run(l, n, before).held, op);
    }
  }

  lemma StepsAgree(l: Layout, n: nat, p: Pool, held: set<Word>, op: Op)
    requires LaidOut(l, n) && l.start > 0 && Conserved(p, Blocks(l, n), held)
    requires if op.OpGet? then 1 <= op.size <= l.blkSize else op.blk in held
    ensures UncheckedStep(p, op) == Step(l, p, op)
  {
    if op.OpFree? {
      FindHeld(p, Blocks(l, n), held, op.blk);
      HeldIsBlk(l, n, p, held, op.blk);
    }
  }

  // ---------------------------------------------------------------- used-block indices

  /** Mem_PoolBlkGetUsedAtIx: the index is subtracted from the block count with a 32-bit wrap. */
  datatype UsedBlk = UsedBlk(blk: Word, err: LibErr)

  function UsedAt(argChk: bool, p: Pool, usedIx: Word): UsedBlk {
    if argChk && p.ix >= |p.ptrs| then UsedBlk(0, InvalidBlkIx)
    else
      var blkIx := Wrap(|p.ptrs| - usedIx - 1);
      if blkIx >= |p.ptrs| || blkIx < p.ix then UsedBlk(0, InvalidBlkIx)
      else UsedBlk(p.ptrs[blkIx], None)
  }

  /** The end of Mem_PoolBlkIxGet: the index of a used block, counted from the last slot. */
  datatype UsedIx = UsedIx(ix: Word, err: LibErr)

  const INVALID_IX: Word := 0xFFFF_FFFF

  function IxOf(p: Pool, blk: Word): UsedIx
    requires |p.ptrs| < WORD
  {
    if p.ix >= |p.ptrs| then UsedIx(INVALID_IX, PoolFull)
    else
      var i := Find(p.ptrs, p.ix, blk);
      if i < |p.ptrs| then UsedIx(|p.ptrs| - 1 - i, None) else UsedIx(INVALID_IX, InvalidPool)
  }

  /** Indices out of range are rejected whatever the wrap makes of them. */
  lemma UsedAtRange(argChk: bool, p: Pool, u: Word)
    requires p.ix <= |p.ptrs| < WORD
    ensures UsedAt(argChk, p, u) ==
            if u < |p.ptrs| - p.ix then UsedBlk(p.ptrs[|p.ptrs| - 1 - u], None) else UsedBlk(0, InvalidBlkIx)
  {
    var d := |p.ptrs| - u - 1;
    if d >= 0 { WrapSmall(d); } else { ModUnique(d, WORD, -1, d + WORD); }
  }

  /** Index and block determine each other. */
  lemma IndexOfHeld(argChk: bool, p: Pool, blocks: seq<Word>, held: set<Word>, blk: Word)
    requires Conserved(p, blocks, held) && |p.ptrs| < WORD
    ensures IxOf(p, blk).err == None <==> blk in held
    ensures blk in held ==> UsedAt(argChk, p, IxOf(p, blk).ix) == UsedBlk(blk, None)
  {
    FindHeld(p, blocks, held, blk);
    UsedAtRange(argChk, p, IxOf(p, blk).ix);
  }

  /** A block that is not in use has no index: the result is the greatest word, which no lookup
      accepts, and the error says whether any block is in use. */
  lemma IndexOfFree(argChk: bool, p: Pool, blocks: seq<Word>, held: set<Word>, blk: Word)
    requires Conserved(p, blocks, held) && |p.ptrs| < WORD && blk !in held
    ensures IxOf(p, blk).ix == 0xFFFF_FFFF && UsedAt(argChk, p, IxOf(p, blk).ix).err == InvalidBlkIx
    ensures IxOf(p, blk).err == if held == {} then PoolFull else InvalidPool
  {
    FindHeld(p, blocks, held, blk);
    NoneHeld(p, blocks, held);
    UsedAtRange(argChk, p, 0xFFFF_FFFF);
  }

  lemma HeldAtIndex(argChk: bool, p: Pool, blocks: seq<Word>, held: set<Word>, u: Word)
    requires Conserved(p, blocks, held) && |p.ptrs| < WORD
    ensures u < |held| <==> UsedAt(argChk, p, u).err == None
    ensures u < |held| ==> UsedAt(argChk, p, u).blk in held && IxOf(p, UsedAt(argChk, p, u).blk) == UsedIx(u, None)
  {
    HeldCount(p, blocks, held);
    UsedAtRange(argChk, p, u);
    if u < |held| {
      var k := |p.ptrs| - 1 - u;
      assert p.ptrs[p.ix..][k - p.ix] == p.ptrs[k];
      FindHeld(p, blocks, held, p.ptrs[k]);
    }
  }

  /** A get leaves every index as it was and gives the new block the next one. */
  lemma GetKeepsIndices(argChk: bool, p: Pool, u: Word)
    requires 0 < p.ix <= |p.ptrs| < WORD
    ensures var q := Get(p).pool;
            UsedAt(argChk, q, u) == if u == |p.ptrs| - p.ix then UsedBlk(Get(p).blk, None) else UsedAt(argChk, p, u)
  {
    UsedAtRange(argChk, p, u);
    UsedAtRange(argChk, Get(p).pool, u);
  }

  /** A free gives the freed index to the block that had the highest one, and moves no other. */
  lemma FreeMovesOneIndex(argChk: bool, p: Pool, blk: Word, u: Word)
    requires p.ix < |p.ptrs| < WORD && IxOf(p, blk).err == None
    ensures var q, top := Release(argChk, p, blk).pool, |p.ptrs| - 1 - p.ix;
            UsedAt(argChk, q, u) ==
            if u == top then UsedBlk(0, InvalidBlkIx)
            else if u == IxOf(p, blk).ix then UsedAt(argChk, p, top)
            else UsedAt(argChk, p, u)
  {
    UsedAtRange(argChk, p, u);
    UsedAtRange(argChk, p, |p.ptrs| - 1 - p.ix);
    UsedAtRange(argChk, Release(argChk, p, blk).pool, u);
  }
}
