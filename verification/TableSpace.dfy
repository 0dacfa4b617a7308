/** Everything that the segments of the table ever handed out, as values. */
module TableSpace {
  import opened WordArithmetic
  import opened SegmentArithmetic
  import opened MemPoolObject
  import opened TableLinks

  /** A region handed out from a segment: a heap block, a pointer array or a pool block. */
  datatype Placed = Placed(seg: MemPool, region: Region)

  /** The region is aligned as asked and lies in the part of its segment behind the cursor. */
  ghost predicate Inside(sp: map<MemPool, Space>, p: Placed) {
    && p.seg in sp && p.region.align > 0 && p.region.addr % p.region.align == 0
    && sp[p.seg].addr <= p.region.addr && p.region.addr + p.region.size <= sp[p.seg].cursor.next
  }

  ghost predicate Regions(sp: map<MemPool, Space>, regions: seq<Placed>) {
    && (forall p {:trigger Inside(sp, p)} :: p in regions ==> Inside(sp, p))
    && (forall i, j {:trigger Apart(regions[i].region, regions[j].region)} ::
          0 <= i < j < |regions| ==> Apart(regions[i].region, regions[j].region))
  }

  /** The segments ascend without overlapping, and so do the regions handed out from them. */
  ghost predicate SpaceOk(sp: map<MemPool, Space>, segs: seq<MemPool>, regions: seq<Placed>) {
    Ordered(sp, segs) && (forall s :: s in sp ==> s in segs) && Regions(sp, regions)
  }

  ghost predicate Disjoint(sp: map<MemPool, Space>) {
    && (forall s :: s in sp ==> Sound(sp[s]))
    && (forall s, t :: s in sp && t in sp && s != t ==>
          sp[s].addr + sp[s].size <= sp[t].addr || sp[t].addr + sp[t].size <= sp[s].addr)
  }

  lemma OrderedDisjoint(sp: map<MemPool, Space>, segs: seq<MemPool>)
    requires Ordered(sp, segs) && forall s :: s in sp ==> s in segs
    ensures Disjoint(sp)
  {
    forall s, t | s in sp && t in sp && s != t
      ensures sp[s].addr + sp[s].size <= sp[t].addr || sp[t].addr + sp[t].size <= sp[s].addr
    {
      var i :| 0 <= i < |segs| && segs[i] == s;
      var j :| 0 <= j < |segs| && segs[j] == t;
      assert Below(sp[segs[i]], sp[segs[j]]) || Below(sp[segs[j]], sp[segs[i]]);
    }
  }

  /** The table after the cursor of s has moved on. */
  function Moved(sp: map<MemPool, Space>, s: MemPool, c: Cursor): map<MemPool, Space>
    requires s in sp
  {
    sp[s := sp[s].(cursor := c)]
  }

  lemma MovedOrdered(sp: map<MemPool, Space>, segs: seq<MemPool>, s: MemPool, c: Cursor)
    requires Ordered(sp, segs) && s in sp && Sound(sp[s].(cursor := c))
    ensures Ordered(Moved(sp, s, c), segs)
  {
    var q := Moved(sp, s, c);
    forall i, j | 0 <= i < j < |segs| ensures Below(q[segs[i]], q[segs[j]]) {
      assert Below(sp[segs[i]], sp[segs[j]]);
    }
    forall i | 0 <= i < |segs| ensures Sound(q[segs[i]]) {
      assert Sound(sp[segs[i]]);
    }
  }

  lemma MovedRegions(sp: map<MemPool, Space>, regions: seq<Placed>, s: MemPool, c: Cursor)
    requires Regions(sp, regions) && s in sp && sp[s].cursor.next <= c.next
    ensures Regions(Moved(sp, s, c), regions)
  {
    forall p | p in regions ensures Inside(Moved(sp, s, c), p) {
      assert Inside(sp, p);
    }
  }

  /** A region between the old cursor and the new one is apart from all earlier ones. */
  lemma NewRegionApart(sp: map<MemPool, Space>, regions: seq<Placed>, s: MemPool, r: Region, i: nat)
    requires Disjoint(sp) && Regions(sp, regions) && s in sp && i < |regions|
    requires sp[s].cursor.next <= r.addr && r.addr + r.size <= sp[s].addr + sp[s].size
    ensures Apart(regions[i].region, r)
  {
    assert Inside(sp, regions[i]);
    assert Sound(sp[s]) && Sound(sp[regions[i].seg]);
  }

  /** One allocation from s. */
  lemma PlaceOne(sp: map<MemPool, Space>, segs: seq<MemPool>, regions: seq<Placed>, s: MemPool,
                 argChk: bool, size: Word, align: Word)
    requires Ordered(sp, segs) && (forall t :: t in sp ==> t in segs) && Regions(sp, regions) && s in sp
    requires align > 0 && Sane(argChk, sp[s].cursor, size, align)
    ensures var a := SegAlloc(argChk, sp[s].cursor, size, align);
            && Ordered(Moved(sp, s, a.cursor), segs)
            && Regions(Moved(sp, s, a.cursor), regions)
            && (a.blk != 0 ==> Regions(Moved(sp, s, a.cursor), regions + [Placed(s, Region(a.blk, size, align))]))
  {
    OrderedDisjoint(sp, segs);
    assert Sound(sp[s]);
    var a := SegAlloc(argChk, sp[s].cursor, size, align);
    SegAllocSpec(argChk, sp[s].cursor, sp[s].addr + sp[s].size, size, align);
    MovedOrdered(sp, segs, s, a.cursor);
    MovedRegions(sp, regions, s, a.cursor);
    if a.blk != 0 {
      forall i | 0 <= i < |regions| ensures Apart(regions[i].region, Region(a.blk, size, align)) {
        NewRegionApart(sp, regions, s, Region(a.blk, size, align), i);
      }
    }
  }

  /** The blocks of a pool as regions of its segment. */
  function BlkRegions(s: MemPool, blks: seq<Word>, size: Word, align: Word): (r: seq<Placed>)
    ensures |r| == |blks|
  {
    if blks == [] then [] else
      BlkRegions(s, blks[..|blks| - 1], size, align) + [Placed(s, Region(blks[|blks| - 1], size, align))]
  }

  lemma {:induction false} BlkRegionsAt(s: MemPool, blks: seq<Word>, size: Word, align: Word, k: nat)
    requires k < |blks|
    ensures BlkRegions(s, blks, size, align)[k] == Placed(s, Region(blks[k], size, align))
    decreases blks
  {
    if k < |blks| - 1 { BlkRegionsAt(s, blks[..|blks| - 1], size, align, k); }
  }

  /** The sizes along a run of allocations do not wrap. */
  predicate SaneRun(argChk: bool, c: Cursor, n: nat, size: Word, align: Word)
    requires align > 0
  {
    argChk || n == 0 || TotSize(c.next, n, size, align) < WORD
  }

  lemma SaneStep(argChk: bool, c: Cursor, end: nat, n: nat, size: Word, align: Word)
    requires align > 0 && n > 0 && InSegment(c, end) && SaneRun(argChk, c, n, size, align)
    requires |SegAllocs(argChk, c, n - 1, size, align).blks| == n - 1
    ensures SaneRun(argChk, c, n - 1, size, align)
    ensures Sane(argChk, SegAllocs(argChk, c, n - 1, size, align).cursor, size, align)
  {
    if !argChk {
      if n == 1 {
        assert Stride(size, align) * 0 == 0;
      } else {
        TotSizeStep(c.next, n - 1, size, align);
        ClosedFormIsLoop(argChk, c, end, n - 1, size, align);
      }
    }
  }

  lemma SaneShorter(argChk: bool, c: Cursor, n: nat, size: Word, align: Word)
    requires align > 0 && n > 0 && SaneRun(argChk, c, n, size, align)
    ensures SaneRun(argChk, c, n - 1, size, align)
  {
    if !argChk && n > 1 { TotSizeStep(c.next, n - 1, size, align); }
  }

  /** The table after a run of allocations from s, complete or cut short by a failure. */
  ghost predicate RunPlaced(sp: map<MemPool, Space>, segs: seq<MemPool>, regions: seq<Placed>, s: MemPool,
                            r: Allocs, size: Word, align: Word)
    requires s in sp
  {
    && Ordered(Moved(sp, s, r.cursor), segs)
    && Regions(Moved(sp, s, r.cursor), regions + BlkRegions(s, r.blks, size, align))
    && sp[s].cursor.next <= r.cursor.next
  }

  lemma PlaceNext(sp: map<MemPool, Space>, segs: seq<MemPool>, regions: seq<Placed>, s: MemPool,
                  argChk: bool, m: Allocs, size: Word, align: Word)
    requires s in sp && s in segs && (forall t :: t in sp ==> t in segs) && RunPlaced(sp, segs, regions, s, m, size, align)
    requires align > 0 && Sane(argChk, m.cursor, size, align)
    ensures var a := SegAlloc(argChk, m.cursor, size, align);
            RunPlaced(sp, segs, regions, s, Allocs(a.cursor, if a.blk == 0 then m.blks else m.blks + [a.blk]), size, align)
  {
    var q, placed := Moved(sp, s, m.cursor), regions + BlkRegions(s, m.blks, size, align);
    var a := SegAlloc(argChk, m.cursor, size, align);
    assert Sound(q[s]);
    PlaceOne(q, segs, placed, s, argChk, size, align);
    SegAllocSpec(argChk, m.cursor, sp[s].addr + sp[s].size, size, align);
    assert Moved(q, s, a.cursor) == Moved(sp, s, a.cursor);
    if a.blk != 0 {
      BlkRegionsSnoc(s, m.blks, a.blk, size, align);
      assert placed + [Placed(s, Region(a.blk, size, align))]
          == regions + BlkRegions(s, m.blks + [a.blk], size, align);
    }
  }

  lemma BlkRegionsSnoc(s: MemPool, blks: seq<Word>, blk: Word, size: Word, align: Word)
    ensures BlkRegions(s, blks + [blk], size, align) ==
            BlkRegions(s, blks, size, align) + [Placed(s, Region(blk, size, align))]
  {
    assert (blks + [blk])[..|blks|] == blks;
  }

  lemma {:induction false} PlaceRun(sp: map<MemPool, Space>, segs: seq<MemPool>, regions: seq<Placed>, s: MemPool,
                                    argChk: bool, n: nat, size: Word, align: Word)
    requires Ordered(sp, segs) && (forall t :: t in sp ==> t in segs) && Regions(sp, regions) && s in sp
    requires align > 0 && SaneRun(argChk, sp[s].cursor, n, size, align)
    ensures RunPlaced(sp, segs, regions, s, SegAllocs(argChk, sp[s].cursor, n, size, align), size, align)
    decreases n
  {
    var c := sp[s].cursor;
    if n == 0 {
      assert Moved(sp, s, c) == sp;
      assert regions + [] == regions;
    } else {
      SaneShorter(argChk, c, n, size, align);
      PlaceRun(sp, segs, regions, s, argChk, n - 1, size, align);
      var m := SegAllocs(argChk, c, n - 1, size, align);
      if |m.blks| == n - 1 {
        assert Sound(sp[s]);
        SaneStep(argChk, c, sp[s].addr + sp[s].size, n, size, align);
        PlaceNext(sp, segs, regions, s, argChk, m, size, align);
      }
    }
  }

  // ---------------------------------------------------------------- searching the segments

  predicate Overlaps(s: Space, base: nat, size: nat) { base < s.addr + s.size && s.addr < base + size }

  predicate Same(s: Space, base: nat, size: nat) { s.addr == base && s.size == size }

  /** From position i on, the first segment that ends behind base. */
  ghost function Stop(sp: map<MemPool, Space>, segs: seq<MemPool>, base: nat, i: nat): (at: nat)
    requires i <= |segs| && Ordered(sp, segs)
    ensures i <= at <= |segs|
    ensures forall j :: i <= j < at ==> sp[segs[j]].addr + sp[segs[j]].size <= base
    ensures at < |segs| ==> base < sp[segs[at]].addr + sp[segs[at]].size
    decreases |segs| - i
  {
    if i < |segs| && sp[segs[i]].addr + sp[segs[i]].size <= base then Stop(sp, segs, base, i + 1) else i
  }

  lemma StopIs(sp: map<MemPool, Space>, segs: seq<MemPool>, base: nat, i: nat, at: nat)
    requires i <= at <= |segs| && Ordered(sp, segs)
    requires forall j :: i <= j < at ==> sp[segs[j]].addr + sp[segs[j]].size <= base
    requires at < |segs| ==> base < sp[segs[at]].addr + sp[segs[at]].size
    ensures Stop(sp, segs, base, i) == at
    decreases at - i
  {
    if i < at { StopIs(sp, segs, base, i + 1, at); }
  }

  /** A segment identical to the new one is where the search stops. */
  lemma StopAtSame(sp: map<MemPool, Space>, segs: seq<MemPool>, base: nat, size: nat, i: nat)
    requires Ordered(sp, segs) && i < |segs| && Same(sp[segs[i]], base, size)
    ensures Stop(sp, segs, base, 0) == i
  {
    var at := Stop(sp, segs, base, 0);
    assert Sound(sp[segs[i]]);
    if at < i { EndsBefore(sp, segs, at, i); }
  }

  lemma EndsBefore(sp: map<MemPool, Space>, segs: seq<MemPool>, i: nat, j: nat)
    requires Ordered(sp, segs) && i < j < |segs|
    ensures sp[segs[i]].addr + sp[segs[i]].size <= sp[segs[j]].addr
  {
    assert Below(sp[segs[i]], sp[segs[j]]);
  }

  /** The segment where the search stops decides alone whether some segment is identical to the
      new one, and whether some segment overlaps it. */
  lemma StopDecides(sp: map<MemPool, Space>, segs: seq<MemPool>, base: nat, size: nat)
    requires Ordered(sp, segs) && size > 0
    ensures var at := Stop(sp, segs, base, 0);
            && ((exists i :: 0 <= i < |segs| && Same(sp[segs[i]], base, size)) <==>
                at < |segs| && Same(sp[segs[at]], base, size))
            && ((exists i :: 0 <= i < |segs| && Overlaps(sp[segs[i]], base, size) && !Same(sp[segs[i]], base, size)) <==>
                at < |segs| && Overlaps(sp[segs[at]], base, size) && !Same(sp[segs[at]], base, size))
  {
    var at := Stop(sp, segs, base, 0);
    forall i | 0 <= i < |segs|
      ensures Same(sp[segs[i]], base, size) ==> i == at
      ensures Overlaps(sp[segs[i]], base, size) && i != at ==>
                at < |segs| && Overlaps(sp[segs[at]], base, size) && !Same(sp[segs[at]], base, size)
    {
      assert Sound(sp[segs[i]]);
      if at < i { assert Sound(sp[segs[at]]) && Below(sp[segs[at]], sp[segs[i]]); }
      if i < at { assert sp[segs[i]].addr + sp[segs[i]].size <= base; }
    }
  }

  // ---------------------------------------------------------------- the whole table

  /** The segments in list order, the pools behind each segment head, the link fields of every
      object, the extent and cursor of every segment, and every region that was handed out. */
  datatype AnyTable = AnyTable(segs: seq<MemPool>, cols: map<MemPool, seq<MemPool>>, links: map<MemPool, Links>,
                               space: map<MemPool, Space>, regions: seq<Placed>)

  const EMPTY := AnyTable([], map[], map[], map[], [])

  /** The table is consistently doubly linked in both directions, its segments ascend without
      overlapping, their cursors account for them, and no handed-out region overlaps another. */
  ghost predicate TableOk(t: AnyTable) {
    SegList(t.links, t.segs) && Columns(t.links, t.segs, t.cols) && SpaceOk(t.space, t.segs, t.regions)
  }

  type Table = t: AnyTable | TableOk(t) ghost witness EMPTY

  /** What holds in every state of the table: following the links from the first segment visits
      each segment once and ends, segments ascend without overlapping, every cursor accounts for
      its segment, and every region ever handed out is aligned, inside its segment, and apart from
      every other. */
  lemma TableIsSafe(t: Table)
    requires t.segs != []
    ensures Distinct(t.segs) && Walk(t.links, t.segs[0], |t.segs|) == null
    ensures forall k: nat :: k < |t.segs| ==> Walk(t.links, t.segs[0], k) == t.segs[k]
    ensures forall i, j :: 0 <= i < j < |t.segs| ==> Below(t.space[t.segs[i]], t.space[t.segs[j]])
    ensures forall s :: s in t.space ==>
              var x := t.space[s]; x.addr <= x.cursor.next && x.cursor.next + x.cursor.rem == x.addr + x.size
    ensures forall p {:trigger p.region} :: p in t.regions ==> Inside(t.space, p)
    ensures forall i, j :: 0 <= i < j < |t.regions| ==> Apart(t.regions[i].region, t.regions[j].region)
  {
    WalkVisits(t.links, t.segs, 0, |t.segs|);
    forall k: nat | k < |t.segs| ensures Walk(t.links, t.segs[0], k) == t.segs[k] {
      WalkVisits(t.links, t.segs, 0, k);
    }
    OrderedDisjoint(t.space, t.segs);
  }

  lemma HeapTable(heap: MemPool, base: Word, size: Word) returns (t: Table)
    requires 0 < base && 0 < size && base + size < WORD
    ensures t == AnyTable([heap], map[heap := []], map[heap := Links(heap, null, null, null, null)],
                          map[heap := Space(base, size, Cursor(base, size))], [])
  {
    SingleSegment(heap);
    assert Sound(Space(base, size, Cursor(base, size)));
    t := AnyTable([heap], map[heap := []], map[heap := Links(heap, null, null, null, null)],
                  map[heap := Space(base, size, Cursor(base, size))], []);
  }

  predicate SameShape(t: AnyTable, u: AnyTable) { u.segs == t.segs && u.cols == t.cols && u.links == t.links }

  /** From t to u the first aligned block was taken from seg. */
  ghost predicate Taken(t: AnyTable, u: AnyTable, seg: MemPool, size: Word, align: Word, blk: Word)
    requires seg in t.space && align > 0
  {
    var c := t.space[seg].cursor;
    && c.next + c.rem < WORD && Fits(c, size, align) && blk == c.next + Pad(c.next, align)
    && SameShape(t, u) && u.space == Moved(t.space, seg, After(c, size, align))
    && u.regions == t.regions + [Placed(seg, Region(blk, size, align))]
  }

  /** The table after that. */
  ghost function WithTaken(t: AnyTable, seg: MemPool, size: Word, align: Word): AnyTable
    requires seg in t.space && align > 0 && Fits(t.space[seg].cursor, size, align)
    requires t.space[seg].cursor.next + t.space[seg].cursor.rem < WORD
  {
    var c := t.space[seg].cursor;
    AnyTable(t.segs, t.cols, t.links, Moved(t.space, seg, After(c, size, align)),
             t.regions + [Placed(seg, Region(c.next + Pad(c.next, align), size, align))])
  }

  lemma TakeOne(t: Table, seg: MemPool, argChk: bool, size: Word, align: Word, a: Alloc) returns (u: Table)
    requires seg in t.space && align > 0 && Sane(argChk, t.space[seg].cursor, size, align)
    requires a == SegAlloc(argChk, t.space[seg].cursor, size, align)
    ensures a.blk != 0 <==> Fits(t.space[seg].cursor, size, align)
    ensures a.blk != 0 ==> Taken(t, u, seg, size, align, a.blk)
    ensures a.blk == 0 ==> u == t
    ensures SameShape(t, u) && u.space == Moved(t.space, seg, a.cursor)
  {
    assert Sound(t.space[seg]);
    SegAllocSpec(argChk, t.space[seg].cursor, t.space[seg].addr + t.space[seg].size, size, align);
    if a.blk == 0 {
      assert Moved(t.space, seg, a.cursor) == t.space;
      u := t;
    } else {
      var q := t.regions + [Placed(seg, Region(a.blk, size, align))];
      PlaceOne(t.space, t.segs, t.regions, seg, argChk, size, align);
      u := Respaced(t, Moved(t.space, seg, a.cursor), q);
    }
  }

  lemma TakenIsTable(t: Table, seg: MemPool, size: Word, align: Word)
    requires seg in t.space && align > 0 && Fits(t.space[seg].cursor, size, align)
    ensures t.space[seg].cursor.next + t.space[seg].cursor.rem < WORD
    ensures TableOk(WithTaken(t, seg, size, align))
  {
    assert Sound(t.space[seg]);
    var a := SegAlloc(true, t.space[seg].cursor, size, align);
    SegAllocSpec(true, t.space[seg].cursor, t.space[seg].addr + t.space[seg].size, size, align);
    var u := TakeOne(t, seg, true, size, align, a);
    assert u == WithTaken(t, seg, size, align);
  }

  lemma Respaced(t: Table, sp: map<MemPool, Space>, regions: seq<Placed>) returns (u: Table)
    requires SpaceOk(sp, t.segs, regions)
    ensures SameShape(t, u) && u.space == sp && u.regions == regions
  {
    u := AnyTable(t.segs, t.cols, t.links, sp, regions);
  }

  /** The table after a run of allocations from seg. */
  ghost function RanFrom(t: AnyTable, seg: MemPool, r: Allocs, size: Word, align: Word): AnyTable
    requires seg in t.space
  {
    AnyTable(t.segs, t.cols, t.links, Moved(t.space, seg, r.cursor), t.regions + BlkRegions(seg, r.blks, size, align))
  }

  lemma TakeRun(t: Table, seg: MemPool, argChk: bool, n: nat, size: Word, align: Word, r: Allocs) returns (u: Table)
    requires seg in t.space && align > 0 && SaneRun(argChk, t.space[seg].cursor, n, size, align)
    requires r == SegAllocs(argChk, t.space[seg].cursor, n, size, align)
    ensures u == RanFrom(t, seg, r, size, align)
  {
    PlaceRun(t.space, t.segs, t.regions, seg, argChk, n, size, align);
    u := RanFrom(t, seg, r, size, align);
  }

  /** The head seg and the pool behind it are in the table. */
  predicate Hooked(t: AnyTable, seg: MemPool) {
    && seg in t.cols && seg in t.links
    && (t.links[seg].poolNext != null ==> t.links[seg].poolNext in t.links && t.links[seg].poolNext != seg)
  }

  lemma HeadHooked(t: Table, seg: MemPool)
    requires seg in t.segs
    ensures Hooked(t, seg) && Column(t.links, seg, t.cols[seg]) && t.links[seg].poolNext == At(t.cols[seg], 0)
  {
    assert Column(t.links, seg, t.cols[seg]);
    if t.cols[seg] != [] {
      assert PoolLinked(t.links, seg, t.cols[seg], 0);
    }
  }

  /** The table after a pool has been put right behind the head seg of its segment. */
  ghost function WithPool(t: AnyTable, pool: MemPool, seg: MemPool): AnyTable
    requires Hooked(t, seg)
  {
    AnyTable(t.segs, t.cols[seg := [pool] + t.cols[seg]], Pushed(t.links, pool, seg, t.links[seg].poolNext),
             t.space, t.regions)
  }

  lemma AddPool(t: Table, pool: MemPool, seg: MemPool) returns (u: Table)
    requires seg in t.segs && pool !in t.links && Hooked(t, seg)
    ensures u == WithPool(t, pool, seg)
  {
    HeadHooked(t, seg);
    PushedSegList(t.links, t.segs, pool, seg, t.links[seg].poolNext);
    PushedColumns(t.links, t.segs, t.cols, pool, seg);
    u := WithPool(t, pool, seg);
  }

  /** The table after a new segment has been spliced in at position at. */
  ghost function WithSegment(t: AnyTable, pool: MemPool, at: nat, base: Word, size: Word): AnyTable
    requires at <= |t.segs| && forall s :: s in t.segs ==> s in t.links
  {
    AnyTable(Insert(t.segs, at, pool), t.cols[pool := []], Spliced(t.links, pool, Before(t.segs, at), At(t.segs, at)),
             t.space[pool := Space(base, size, Cursor(base, size))], t.regions)
  }

  lemma AddSegment(t: Table, pool: MemPool, at: nat, base: Word, size: Word) returns (u: Table)
    requires t.segs != [] && pool !in t.links && 0 < base && 0 < size && base + size < WORD
    requires at == Stop(t.space, t.segs, base, 0) && (at < |t.segs| ==> base + size <= t.space[t.segs[at]].addr)
    ensures u == WithSegment(t, pool, at, base, size)
    ensures (forall p :: p in t.segs ==> p in u.segs) && u.segs[0] == if at == 0 then pool else t.segs[0]
  {
    InsertMembers(t.segs, at, pool);
    SplicedSegList(t.links, t.segs, pool, at);
    SplicedColumns(t.links, t.segs, t.cols, pool, at);
    AddSpace(t.space, t.segs, t.regions, pool, at, Space(base, size, Cursor(base, size)));
    u := WithSegment(t, pool, at, base, size);
  }

  lemma AddSpace(sp: map<MemPool, Space>, segs: seq<MemPool>, regions: seq<Placed>, pool: MemPool, at: nat, s: Space)
    requires SpaceOk(sp, segs, regions) && pool !in segs && Sound(s)
    requires at == Stop(sp, segs, s.addr, 0) && (at < |segs| ==> s.addr + s.size <= sp[segs[at]].addr)
    ensures SpaceOk(sp[pool := s], Insert(segs, at, pool), regions)
  {
    forall j | at <= j < |segs| ensures s.addr + s.size <= sp[segs[j]].addr {
      assert Sound(sp[segs[at]]) && (at < j ==> Below(sp[segs[at]], sp[segs[j]]));
    }
    SplicedOrdered(sp, segs, pool, s, at);
    InsertMembers(segs, at, pool);
    forall p | p in regions ensures Inside(sp[pool := s], p) {
      assert Inside(sp, p);
    }
  }
}
