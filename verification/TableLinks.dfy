/** The shape of the memory pool table, as values: for every pool object its five link fields,
    and for every segment its extent and cursor. */
module TableLinks {
  import opened SegmentArithmetic
  import opened MemPoolObject

  datatype Links = Links(segHead: MemPool?, segPrev: MemPool?, segNext: MemPool?, poolPrev: MemPool?, poolNext: MemPool?)

  datatype Space = Space(addr: nat, size: nat, cursor: Cursor)

  function Before(s: seq<MemPool>, i: nat): MemPool?
    requires i <= |s|
  {
    if i == 0 then null else s[i - 1]
  }

  function At(s: seq<MemPool>, i: nat): MemPool? {
    if i < |s| then s[i] else null
  }

  ghost predicate Distinct(s: seq<MemPool>) { forall i, j :: 0 <= i < j < |s| ==> s[i] != s[j] }

  function Insert(s: seq<MemPool>, at: nat, p: MemPool): (t: seq<MemPool>)
    requires at <= |s|
    ensures |t| == |s| + 1 && t[at] == p
    ensures forall i :: 0 <= i < at ==> t[i] == s[i]
    ensures forall i :: at < i < |t| ==> t[i] == s[i - 1]
  {
    s[..at] + [p] + s[at..]
  }

  lemma InsertMembers(s: seq<MemPool>, at: nat, p: MemPool)
    requires at <= |s|
    ensures var t := Insert(s, at, p);
            (forall q :: q in t ==> q == p || q in s) && (forall q :: q in s ==> q in t) && p in t
  {
    var t := Insert(s, at, p);
    forall q | q in s ensures q in t {
      var i :| 0 <= i < |s| && s[i] == q;
      assert t[if i < at then i else i + 1] == q;
    }
  }

  // ---------------------------------------------------------------- the list of segments

  ghost predicate SegList(l: map<MemPool, Links>, segs: seq<MemPool>) {
    && Distinct(segs)
    && (forall i :: 0 <= i < |segs| ==> segs[i] in l)
    && (forall i {:trigger SegLinked(l, segs, i)} :: 0 <= i < |segs| ==> SegLinked(l, segs, i))
  }

  /** The segment at position i names its neighbours. */
  predicate SegLinked(l: map<MemPool, Links>, segs: seq<MemPool>, i: nat)
    requires i < |segs| && segs[i] in l
  {
    l[segs[i]].segPrev == Before(segs, i) && l[segs[i]].segNext == At(segs, i + 1)
  }

  /** The links after a new segment has been spliced in between prev and next. */
  function Spliced(l: map<MemPool, Links>, pool: MemPool, prev: MemPool?, next: MemPool?): map<MemPool, Links>
    requires (prev != null ==> prev in l) && (next != null ==> next in l)
  {
    var a := if prev == null then l else l[prev := l[prev].(segNext := pool)];
    var b := if next == null then a else a[next := a[next].(segPrev := pool)];
    b[pool := Links(pool, prev, next, null, null)]
  }

  /** What splicing does to the links k of the object p. */
  function Splicing(k: Links, pool: MemPool, prev: MemPool?, next: MemPool?, p: MemPool): Links {
    k.(segPrev := if p == next then pool else k.segPrev, segNext := if p == prev then pool else k.segNext)
  }

  predicate SplicedAt(l: map<MemPool, Links>, m: map<MemPool, Links>, pool: MemPool, prev: MemPool?, next: MemPool?, p: MemPool)
    requires p in l
  {
    p in m && m[p] == Splicing(l[p], pool, prev, next, p)
  }

  lemma SplicedFacts(l: map<MemPool, Links>, pool: MemPool, prev: MemPool?, next: MemPool?)
    requires (prev != null ==> prev in l) && (next != null ==> next in l) && pool !in l
    ensures var m := Spliced(l, pool, prev, next);
            && m.Keys == l.Keys + {pool} && m[pool] == Links(pool, prev, next, null, null)
            && (forall p :: p in l ==> SplicedAt(l, m, pool, prev, next, p))
            && (forall p :: p in l ==> SamePlace(l, m, p))
  {
  }

  lemma SplicedSegList(l: map<MemPool, Links>, segs: seq<MemPool>, pool: MemPool, at: nat)
    requires SegList(l, segs) && pool !in l && at <= |segs|
    ensures SegList(Spliced(l, pool, Before(segs, at), At(segs, at)), Insert(segs, at, pool))
  {
    SplicedFacts(l, pool, Before(segs, at), At(segs, at));
    InsertedSegList(l, Spliced(l, pool, Before(segs, at), At(segs, at)), segs, pool, at);
  }

  lemma InsertedSegList(l: map<MemPool, Links>, m: map<MemPool, Links>, segs: seq<MemPool>, pool: MemPool, at: nat)
    requires SegList(l, segs) && pool !in l && at <= |segs|
    requires forall p :: p in l ==> SplicedAt(l, m, pool, Before(segs, at), At(segs, at), p)
    requires pool in m && m[pool].segPrev == Before(segs, at) && m[pool].segNext == At(segs, at)
    ensures SegList(m, Insert(segs, at, pool))
  {
    var t := Insert(segs, at, pool);
    forall i | 0 <= i < |t| ensures t[i] in m && SegLinked(m, t, i) {
      if i < at { assert SegLinked(l, segs, i) && SplicedAt(l, m, pool, Before(segs, at), At(segs, at), segs[i]); }
      if i > at { assert SegLinked(l, segs, i - 1) && SplicedAt(l, m, pool, Before(segs, at), At(segs, at), segs[i - 1]); }
    }
  }

  /** The object that is reached from p by following the next links of segments k times. */
  function Walk(l: map<MemPool, Links>, p: MemPool?, k: nat): MemPool? {
    if k == 0 || p == null || p !in l then p else Walk(l, l[p].segNext, k - 1)
  }

  /** The same backwards. */
  function WalkBack(l: map<MemPool, Links>, p: MemPool?, k: nat): MemPool? {
    if k == 0 || p == null || p !in l then p else WalkBack(l, l[p].segPrev, k - 1)
  }

  /** From any segment the links lead, one by one in both directions, through the list and then to null. */
  lemma {:induction false} WalkVisits(l: map<MemPool, Links>, segs: seq<MemPool>, i: nat, k: nat)
    requires SegList(l, segs) && i < |segs|
    ensures i + k <= |segs| ==> Walk(l, segs[i], k) == At(segs, i + k)
    ensures k <= i + 1 ==> WalkBack(l, segs[i], k) == Before(segs, i + 1 - k)
    decreases k
  {
    if k > 0 {
      assert SegLinked(l, segs, i);
      if i + 1 < |segs| { WalkVisits(l, segs, i + 1, k - 1); }
      if i > 0 { WalkVisits(l, segs, i - 1, k - 1); }
    }
  }

  // ---------------------------------------------------------------- the pools of a segment

  /** The pools that share the segment headed by h, doubly linked from h in the order of col. */
  ghost predicate Column(l: map<MemPool, Links>, h: MemPool, col: seq<MemPool>) {
    && h in l && l[h].segHead == h && l[h].poolPrev == null && l[h].poolNext == At(col, 0)
    && Distinct(col)
    && (forall i :: 0 <= i < |col| ==> col[i] in l && l[col[i]].segHead == h)
    && (forall i {:trigger PoolLinked(l, h, col, i)} :: 0 <= i < |col| ==> PoolLinked(l, h, col, i))
  }

  /** The pool at position i names its neighbours. */
  predicate PoolLinked(l: map<MemPool, Links>, h: MemPool, col: seq<MemPool>, i: nat)
    requires i < |col| && col[i] in l
  {
    l[col[i]].poolPrev == (if i == 0 then h else col[i - 1]) && l[col[i]].poolNext == At(col, i + 1)
  }

  /** The object that is reached from p by following the next links of pools k times. */
  function WalkPools(l: map<MemPool, Links>, p: MemPool?, k: nat): MemPool? {
    if k == 0 || p == null || p !in l then p else WalkPools(l, l[p].poolNext, k - 1)
  }

  /** From the head of a segment they lead through its pools and then to null. */
  lemma {:induction false} PoolsVisited(l: map<MemPool, Links>, h: MemPool, col: seq<MemPool>, i: nat, k: nat)
    requires Column(l, h, col) && i + k <= |col|
    ensures WalkPools(l, At(col, i), k) == At(col, i + k)
    ensures i == 0 ==> WalkPools(l, h, k + 1) == At(col, k)
    decreases k
  {
    if i < |col| { assert PoolLinked(l, h, col, i); }
    if k > 0 { PoolsVisited(l, h, col, i + 1, k - 1); }
  }

  /** Every object in the table is the head of a segment or in the column of its segment head. */
  ghost predicate Columns(l: map<MemPool, Links>, segs: seq<MemPool>, cols: map<MemPool, seq<MemPool>>) {
    && (forall h :: h in segs ==> h in cols) && (forall h :: h in cols ==> h in segs)
    && (forall h {:trigger Column(l, h, cols[h])} :: h in cols ==> Column(l, h, cols[h]))
    && (forall p {:trigger Listed(segs, cols, p)} :: p in l ==> Listed(segs, cols, p))
  }

  ghost predicate Listed(segs: seq<MemPool>, cols: map<MemPool, seq<MemPool>>, p: MemPool) {
    p in segs || (exists h: MemPool :: h in cols && p in cols[h])
  }

  /** p keeps its place in its column. */
  predicate SamePlace(l: map<MemPool, Links>, m: map<MemPool, Links>, p: MemPool)
    requires p in l
  {
    p in m && m[p].segHead == l[p].segHead && m[p].poolPrev == l[p].poolPrev && m[p].poolNext == l[p].poolNext
  }

  lemma ColumnKept(l: map<MemPool, Links>, m: map<MemPool, Links>, h: MemPool, col: seq<MemPool>)
    requires Column(l, h, col) && SamePlace(l, m, h)
    requires forall i :: 0 <= i < |col| ==> SamePlace(l, m, col[i])
    ensures Column(m, h, col)
  {
    forall i | 0 <= i < |col| ensures PoolLinked(m, h, col, i) {
      assert PoolLinked(l, h, col, i) && SamePlace(l, m, col[i]);
    }
  }

  lemma SplicedColumns(l: map<MemPool, Links>, segs: seq<MemPool>, cols: map<MemPool, seq<MemPool>>, pool: MemPool, at: nat)
    requires SegList(l, segs) && Columns(l, segs, cols) && pool !in l && at <= |segs|
    ensures Columns(Spliced(l, pool, Before(segs, at), At(segs, at)), Insert(segs, at, pool), cols[pool := []])
  {
    SplicedFacts(l, pool, Before(segs, at), At(segs, at));
    InsertMembers(segs, at, pool);
    ColumnsExtended(l, Spliced(l, pool, Before(segs, at), At(segs, at)), segs, Insert(segs, at, pool), cols, pool);
  }

  lemma ColumnsExtended(l: map<MemPool, Links>, m: map<MemPool, Links>, segs: seq<MemPool>, t: seq<MemPool>,
                        cols: map<MemPool, seq<MemPool>>, pool: MemPool)
    requires Columns(l, segs, cols) && (forall p :: p in segs ==> p in l) && pool !in l
    requires m.Keys == l.Keys + {pool} && Column(m, pool, []) && forall p :: p in l ==> SamePlace(l, m, p)
    requires (forall p :: p in t ==> p == pool || p in segs) && (forall p :: p in segs ==> p in t) && pool in t
    ensures Columns(m, t, cols[pool := []])
  {
    var c := cols[pool := []];
    forall h | h in cols ensures h != pool && Column(m, h, cols[h]) {
      ColumnKept(l, m, h, cols[h]);
    }
    forall p | p in m ensures Listed(t, c, p) {
      if p !in t {
        assert Listed(segs, cols, p);
        var h: MemPool :| h in cols && p in cols[h];
        assert h in c && c[h] == cols[h];
      }
    }
  }

  /** The links after a pool has been put right behind the segment head h. */
  function Pushed(l: map<MemPool, Links>, pool: MemPool, h: MemPool, next: MemPool?): map<MemPool, Links>
    requires h in l && (next != null ==> next in l)
  {
    var a := l[h := l[h].(poolNext := pool)];
    var b := if next == null then a else a[next := a[next].(poolPrev := pool)];
    b[pool := Links(h, null, null, h, next)]
  }

  /** What pushing does to the links k of the object p. */
  function Pushing(k: Links, pool: MemPool, h: MemPool, next: MemPool?, p: MemPool): Links {
    k.(poolPrev := if p == next then pool else k.poolPrev, poolNext := if p == h then pool else k.poolNext)
  }

  lemma PushedFacts(l: map<MemPool, Links>, pool: MemPool, h: MemPool, next: MemPool?)
    requires h in l && (next != null ==> next in l) && pool !in l
    ensures var m := Pushed(l, pool, h, next);
            && m.Keys == l.Keys + {pool} && m[pool] == Links(h, null, null, h, next)
            && (forall p :: p in l ==> m[p] == Pushing(l[p], pool, h, next, p))
  {
  }

  lemma PushedSegList(l: map<MemPool, Links>, segs: seq<MemPool>, pool: MemPool, h: MemPool, next: MemPool?)
    requires SegList(l, segs) && pool !in l && h in l && (next != null ==> next in l)
    ensures SegList(Pushed(l, pool, h, next), segs)
  {
    PushedFacts(l, pool, h, next);
    forall i | 0 <= i < |segs| ensures SegLinked(Pushed(l, pool, h, next), segs, i) {
      assert SegLinked(l, segs, i);
    }
  }

  lemma PushedColumn(l: map<MemPool, Links>, h: MemPool, col: seq<MemPool>, pool: MemPool)
    requires Column(l, h, col) && pool !in l
    ensures Column(Pushed(l, pool, h, At(col, 0)), h, [pool] + col)
  {
    var m, t := Pushed(l, pool, h, At(col, 0)), [pool] + col;
    forall i | 0 <= i < |col| ensures col[i] != h {
      assert PoolLinked(l, h, col, i);
    }
    forall i | 0 <= i < |t| ensures t[i] in m && m[t[i]].segHead == h && PoolLinked(m, h, t, i) {
      if i > 0 { assert t[i] == col[i - 1] && PoolLinked(l, h, col, i - 1); }
    }
  }

  lemma OtherColumn(l: map<MemPool, Links>, h: MemPool, col: seq<MemPool>, g: MemPool, other: seq<MemPool>, pool: MemPool)
    requires Column(l, h, col) && Column(l, g, other) && g != h && pool !in l
    ensures Column(Pushed(l, pool, h, At(col, 0)), g, other)
  {
    var m := Pushed(l, pool, h, At(col, 0));
    assert col != [] ==> l[col[0]].segHead == h;
    assert forall p :: p in l && l[p].segHead != h ==> SamePlace(l, m, p);
    ColumnKept(l, m, g, other);
  }

  lemma PushedColumns(l: map<MemPool, Links>, segs: seq<MemPool>, cols: map<MemPool, seq<MemPool>>, pool: MemPool, h: MemPool)
    requires Columns(l, segs, cols) && h in cols && Column(l, h, cols[h]) && pool !in l
    ensures Columns(Pushed(l, pool, h, At(cols[h], 0)), segs, cols[h := [pool] + cols[h]])
  {
    assert Column(l, h, cols[h]);
    var m, c := Pushed(l, pool, h, At(cols[h], 0)), cols[h := [pool] + cols[h]];
    forall g | g in c ensures Column(m, g, c[g]) {
      assert Column(l, g, cols[g]);
      if g == h { PushedColumn(l, h, cols[h], pool); } else { OtherColumn(l, h, cols[h], g, cols[g], pool); }
    }
    forall p | p in m ensures Listed(segs, c, p) {
      if p == pool {
        assert p in c[h];
      } else if p !in segs {
        assert Listed(segs, cols, p);
        var g: MemPool :| g in cols && p in cols[g];
        assert p in c[g];
      }
    }
  }

  /** The table that holds nothing but the heap. */
  lemma SingleSegment(heap: MemPool)
    ensures var l := map[heap := Links(heap, null, null, null, null)];
            SegList(l, [heap]) && Columns(l, [heap], map[heap := []])
  {
    var l := map[heap := Links(heap, null, null, null, null)];
    assert Column(l, heap, []);
  }

  // ---------------------------------------------------------------- order and extent

  /** The segment is a C object below the top of memory, and its cursor accounts for it. */
  predicate Sound(s: Space) {
    0 < s.addr <= s.cursor.next && 0 < s.size && InSegment(s.cursor, s.addr + s.size)
  }

  ghost predicate Ordered(sp: map<MemPool, Space>, segs: seq<MemPool>) {
    && (forall i :: 0 <= i < |segs| ==> segs[i] in sp)
    && (forall i {:trigger Sound(sp[segs[i]])} :: 0 <= i < |segs| ==> Sound(sp[segs[i]]))
    && (forall i, j {:trigger Below(sp[segs[i]], sp[segs[j]])} :: 0 <= i < j < |segs| ==> Below(sp[segs[i]], sp[segs[j]]))
  }

  predicate Below(s: Space, t: Space) { s.addr + s.size <= t.addr }

  lemma SplicedOrdered(sp: map<MemPool, Space>, segs: seq<MemPool>, pool: MemPool, s: Space, at: nat)
    requires Ordered(sp, segs) && pool !in sp && Sound(s) && at <= |segs|
    requires forall j :: 0 <= j < at ==> sp[segs[j]].addr + sp[segs[j]].size <= s.addr
    requires forall j :: at <= j < |segs| ==> s.addr + s.size <= sp[segs[j]].addr
    ensures Ordered(sp[pool := s], Insert(segs, at, pool))
  {
    var q, t := sp[pool := s], Insert(segs, at, pool);
    forall i | 0 <= i < |t| ensures t[i] in q && Sound(q[t[i]]) {
      if i < at { assert Sound(sp[segs[i]]); }
      if i > at { assert Sound(sp[segs[i - 1]]); }
    }
    forall i, j | 0 <= i < j < |t| ensures Below(q[t[i]], q[t[j]]) {
      if i != at && j != at {
        assert Below(sp[segs[if i < at then i else i - 1]], sp[segs[if j < at then j else j - 1]]);
      }
    }
  }
}
