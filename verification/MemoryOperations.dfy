/** UCOSIII/uC-LIB/lib_mem.c: filling, copying, moving and comparing memory. Each function works
    by aligned words where it can; each is proved against a description octet by octet. */
module MemoryOperations {
  import opened WordArithmetic

  type Octets = seq<bv8>

  /** sizeof(CPU_ALIGN). */
  const ALIGN := 4

  // ---------------------------------------------------------------- aligned words

  /** Octet k of a word, in the little-endian order of the processor. */
  function OctetOf(w: bv32, k: nat): bv8
    requires k < 4
  {
    match k
    case 0 => (w & 0xFF) as bv8
    case 1 => ((w >> 8) & 0xFF) as bv8
    case 2 => ((w >> 16) & 0xFF) as bv8
    case _ => ((w >> 24) & 0xFF) as bv8
  }

  function WordOf(a: bv8, b: bv8, c: bv8, d: bv8): bv32 {
    (a as bv32) | ((b as bv32) << 8) | ((c as bv32) << 16) | ((d as bv32) << 24)
  }

  lemma OctetsOfWord(a: bv8, b: bv8, c: bv8, d: bv8)
    ensures var w := WordOf(a, b, c, d); OctetOf(w, 0) == a && OctetOf(w, 1) == b && OctetOf(w, 2) == c && OctetOf(w, 3) == d
  {
  }

  predicate WordAt(m: Octets, a: nat) { a % ALIGN == 0 && a + ALIGN <= |m| }

  function Load(m: Octets, a: nat): bv32
    requires WordAt(m, a)
  {
    WordOf(m[a], m[a + 1], m[a + 2], m[a + 3])
  }

  lemma LoadedOctet(m: Octets, a: nat, k: nat)
    requires WordAt(m, a) && k < 4
    ensures OctetOf(Load(m, a), k) == m[a + k]
  {
    OctetsOfWord(m[a], m[a + 1], m[a + 2], m[a + 3]);
  }

  /** Words are equal exactly when their octets are. */
  lemma EqualWords(m: Octets, a: nat, b: nat)
    requires WordAt(m, a) && WordAt(m, b)
    ensures Load(m, a) == Load(m, b) <==> m[a..a + 4] == m[b..b + 4]
  {
    var s, t := m[a..a + 4], m[b..b + 4];
    if Load(m, a) == Load(m, b) {
      forall k | 0 <= k < 4 ensures s[k] == t[k] {
        LoadedOctet(m, a, k);
        LoadedOctet(m, b, k);
      }
    }
    if s == t {
      assert s[0] == m[a] && s[1] == m[a + 1] && s[2] == m[a + 2] && s[3] == m[a + 3];
      assert t[0] == m[b] && t[1] == m[b + 1] && t[2] == m[b + 2] && t[3] == m[b + 3];
    }
  }

  /** The memory after a word was stored. */
  function Stored(m: Octets, a: nat, w: bv32): Octets
    requires WordAt(m, a)
  {
    m[a := OctetOf(w, 0)][a + 1 := OctetOf(w, 1)][a + 2 := OctetOf(w, 2)][a + 3 := OctetOf(w, 3)]
  }

  method LoadWord(mem: array<bv8>, a: nat) returns (w: bv32)
    requires WordAt(mem[..], a)
    ensures w == Load(mem[..], a)
  {
    w := WordOf(mem[a], mem[a + 1], mem[a + 2], mem[a + 3]);
  }

  method StoreWord(mem: array<bv8>, a: nat, w: bv32)
    requires WordAt(mem[..], a)
    modifies mem
    ensures mem[..] == Stored(old(mem[..]), a, w)
  {
    mem[a] := OctetOf(w, 0);
    mem[a + 1] := OctetOf(w, 1);
    mem[a + 2] := OctetOf(w, 2);
    mem[a + 3] := OctetOf(w, 3);
  }

  // ---------------------------------------------------------------- Mem_Set

  /** m with n octets from a on set to v, and nothing else changed. */
  ghost predicate IsFilled(m: Octets, r: Octets, a: nat, n: nat, v: bv8) {
    |r| == |m| && forall k {:trigger r[k]} :: 0 <= k < |m| ==> r[k] == if a <= k < a + n then v else m[k]
  }

  /** Storing the replicated octet fills the word. */
  lemma StoredFill(m: Octets, a: nat, v: bv8)
    requires WordAt(m, a)
    ensures IsFilled(m, Stored(m, a, WordOf(v, v, v, v)), a, ALIGN, v)
  {
    OctetsOfWord(v, v, v, v);
  }

  lemma FilledOn(m: Octets, r: Octets, t: Octets, a: nat, n: nat, j: nat, v: bv8)
    requires IsFilled(m, r, a, n, v) && IsFilled(r, t, a + n, j, v)
    ensures IsFilled(m, t, a, n + j, v)
  {
  }

  lemma Replicated(v: bv8, w1: bv32, w2: bv32, w3: bv32, w4: bv32)
    requires w1 == ShiftedInto(0, v) && w2 == ShiftedInto(w1, v) && w3 == ShiftedInto(w2, v) && w4 == ShiftedInto(w3, v)
    ensures w4 == WordOf(v, v, v, v)
  {
  }

  function ShiftedInto(w: bv32, v: bv8): bv32 { (w << 8) | (v as bv32) }

  /** The word that holds an octet ALIGN times. */
  method Replicate(dataVal: bv8) returns (dataAlign: bv32)
    ensures dataAlign == WordOf(dataVal, dataVal, dataVal, dataVal)
  {
    dataAlign := 0;
    ghost var w1 := ShiftedInto(0, dataVal);
    ghost var w2 := ShiftedInto(w1, dataVal);
    ghost var w3 := ShiftedInto(w2, dataVal);
    for i := 0 to ALIGN
      invariant dataAlign == if i == 0 then 0 else if i == 1 then w1 else if i == 2 then w2 else if i == 3 then w3
                             else ShiftedInto(w3, dataVal)
    {
      dataAlign := ShiftedInto(dataAlign, dataVal);
    }
    Replicated(dataVal, w1, w2, w3, dataAlign);
  }

  predicate InBounds(mem: array<bv8>, pmem: nat, size: nat) { size == 0 || pmem + size <= mem.Length }

  /** The leading octets, up to the next word boundary; done octets of the buffer are filled. */
  method SetLeading(mem: array<bv8>, pmem: nat, dataVal: bv8, size: nat) returns (done: nat)
    requires InBounds(mem, pmem, size)
    modifies mem
    ensures done <= size && (done < size ==> (pmem + done) % ALIGN == 0)
    ensures IsFilled(old(mem[..]), mem[..], pmem, done, dataVal)
  {
    done := 0;
    var i := pmem % ALIGN;
    if i != 0 {
      while done < size && i < ALIGN
        invariant done <= size && i == pmem % ALIGN + done <= ALIGN
        invariant IsFilled(old(mem[..]), mem[..], pmem, done, dataVal)
      {
        mem[pmem + done] := dataVal;
        done, i := done + 1, i + 1;
      }
    }
  }

  /** One aligned word of a buffer at pmem of which done octets are filled. */
  method SetWord(mem: array<bv8>, p: nat, dataVal: bv8, dataAlign: bv32, ghost was: Octets, ghost pmem: nat, ghost done: nat)
    requires WordAt(mem[..], p) && p == pmem + done && IsFilled(was, mem[..], pmem, done, dataVal)
    requires dataAlign == WordOf(dataVal, dataVal, dataVal, dataVal)
    modifies mem
    ensures IsFilled(was, mem[..], pmem, done + ALIGN, dataVal)
  {
    ghost var m := mem[..];
    StoreWord(mem, p, dataAlign);
    StoredFill(m, p, dataVal);
    FilledOn(was, m, mem[..], pmem, done, ALIGN, dataVal);
  }

  /** The aligned words. */
  method SetWords(mem: array<bv8>, pmem: nat, dataVal: bv8, dataAlign: bv32, size: nat) returns (done: nat)
    requires InBounds(mem, pmem, size) && (size > 0 ==> pmem % ALIGN == 0)
    requires dataAlign == WordOf(dataVal, dataVal, dataVal, dataVal)
    modifies mem
    ensures done <= size < done + ALIGN
    ensures IsFilled(old(mem[..]), mem[..], pmem, done, dataVal)
  {
    done := 0;
    while size - done >= ALIGN
      invariant done <= size && done % ALIGN == 0
      invariant IsFilled(old(mem[..]), mem[..], pmem, done, dataVal)
    {
      SetWord(mem, pmem + done, dataVal, dataAlign, old(mem[..]), pmem, done);
      done := done + ALIGN;
    }
  }

  /** The trailing octets. */
  method SetTrailing(mem: array<bv8>, pmem: nat, dataVal: bv8, size: nat)
    requires InBounds(mem, pmem, size)
    modifies mem
    ensures IsFilled(old(mem[..]), mem[..], pmem, size, dataVal)
  {
    var done := 0;
    while done < size
      invariant done <= size
      invariant IsFilled(old(mem[..]), mem[..], pmem, done, dataVal)
    {
      mem[pmem + done] := dataVal;
      done := done + 1;
    }
  }

  /** Mem_Set: exactly the named octets are filled, whatever the address and the size. */
  method Set(argChk: bool, mem: array<bv8>, pmem: nat, dataVal: bv8, size: nat)
    requires size == 0 || pmem + size <= mem.Length || (argChk && pmem == 0)
    modifies mem
    ensures forall k :: 0 <= k < mem.Length ==>
              mem[k] == if pmem <= k < pmem + size && !(argChk && pmem == 0) then dataVal else old(mem[k])
  {
    if argChk && (size < 1 || pmem == 0) {
      return;
    }
    var dataAlign := Replicate(dataVal);
    ghost var was := mem[..];
    var n := SetLeading(mem, pmem, dataVal, size);
    ghost var led := mem[..];
    var w := SetWords(mem, pmem + n, dataVal, dataAlign, size - n);
    FilledOn(was, led, mem[..], pmem, n, w, dataVal);
    ghost var worded := mem[..];
    SetTrailing(mem, pmem + n + w, dataVal, size - n - w);
    FilledOn(was, worded, mem[..], pmem, n + w, size - n - w, dataVal);
  }

  /** Mem_Clr. */
  method Clr(argChk: bool, mem: array<bv8>, pmem: nat, size: nat)
    requires size == 0 || pmem + size <= mem.Length || (argChk && pmem == 0)
    modifies mem
    ensures forall k :: 0 <= k < mem.Length ==>
              mem[k] == if pmem <= k < pmem + size && !(argChk && pmem == 0) then 0 else old(mem[k])
  {
    Set(argChk, mem, pmem, 0, size);
  }

  // ---------------------------------------------------------------- Mem_Copy

  predicate Spans(m: Octets, d: nat, s: nat, n: nat) { n == 0 || (d + n <= |m| && s + n <= |m|) }

  /** Copying n octets from s to d one at a time, upwards. */
  function OctetCopy(m: Octets, d: nat, s: nat, n: nat): (r: Octets)
    requires Spans(m, d, s, n)
    ensures |r| == |m|
  {
    if n == 0 then m
    else var t := OctetCopy(m, d, s, n - 1); t[d + n - 1 := t[s + n - 1]]
  }

  lemma {:induction false} OctetCopyOn(m: Octets, d: nat, s: nat, i: nat, j: nat)
    requires Spans(m, d, s, i + j)
    ensures OctetCopy(OctetCopy(m, d, s, i), d + i, s + i, j) == OctetCopy(m, d, s, i + j)
    decreases j
  {
    if j > 0 { OctetCopyOn(m, d, s, i, j - 1); }
  }

  /** Where the octet comes from that an upward copy leaves at k. */
  function Source(d: nat, s: nat, n: nat, k: nat): nat {
    if !(d <= k < d + n) then k else if s >= d then s + (k - d) else s + (k - d) % (d - s)
  }

  lemma SourceOfLast(d: nat, s: nat, n: nat)
    requires n > 0
    ensures Source(d, s, n - 1, s + n - 1) == Source(d, s, n, d + n - 1) < s + n
  {
    if s < d { Repeats(n - 1, d - s); }
  }

  lemma {:induction false} CopiedFrom(m: Octets, d: nat, s: nat, n: nat, k: nat)
    requires Spans(m, d, s, n) && k < |m|
    ensures Source(d, s, n, k) < |m| && OctetCopy(m, d, s, n)[k] == m[Source(d, s, n, k)]
    decreases n
  {
    if n > 0 {
      if k == d + n - 1 {
        CopiedFrom(m, d, s, n - 1, s + n - 1);
        SourceOfLast(d, s, n);
      } else {
        CopiedFrom(m, d, s, n - 1, k);
      }
    }
  }

  /** Octet k after an upward copy: with the source above, the old source octet; with the source
      below, the first d - s octets repeat. */
  lemma CopiedAt(m: Octets, d: nat, s: nat, n: nat, k: nat)
    requires Spans(m, d, s, n) && k < |m|
    ensures OctetCopy(m, d, s, n)[k] ==
            if !(d <= k < d + n) then m[k] else if s >= d then m[s + (k - d)] else m[s + (k - d) % (d - s)]
  {
    CopiedFrom(m, d, s, n, k);
  }

  lemma Repeats(x: nat, p: nat)
    requires p > 0
    ensures x % p <= x && x % p == if x < p then x else (x - p) % p
  {
    if x < p { ModUnique(x, p, 0, x); } else { ModUnique(x, p, (x - p) / p + 1, (x - p) % p); }
  }

  /** The ideal move: the destination holds what the source held, and nothing else changed. */
  ghost predicate IsMoved(m: Octets, r: Octets, d: nat, s: nat, n: nat)
    requires Spans(m, d, s, n)
  {
    |r| == |m| && forall k {:trigger r[k]} :: 0 <= k < |m| ==> r[k] == if d <= k < d + n then m[s + (k - d)] else m[k]
  }

  /** An upward copy is an ideal move of every content if and only if the source does not lie
      below the destination and reach into it. */
  lemma CopyMovesIff(len: nat, d: nat, s: nat, n: nat)
    requires n > 0 && d + n <= len && s + n <= len
    ensures (forall m: Octets :: |m| == len ==> IsMoved(m, OctetCopy(m, d, s, n), d, s, n)) <==> s >= d || s + n <= d
  {
    if s >= d || s + n <= d {
      forall m: Octets | |m| == len ensures IsMoved(m, OctetCopy(m, d, s, n), d, s, n) {
        CopyMoves(m, d, s, n);
      }
    } else {
      var m := CopyMangles(len, d, s, n);
      assert |m| == len && !IsMoved(m, OctetCopy(m, d, s, n), d, s, n);
    }
  }

  /** A content that an upward copy does not move ideally: one octet that is overwritten before
      it is read. */
  lemma CopyMangles(len: nat, d: nat, s: nat, n: nat) returns (m: Octets)
    requires d + n <= len && s < d < s + n
    ensures |m| == len && !IsMoved(m, OctetCopy(m, d, s, n), d, s, n)
  {
    m := seq(len, _ => 0)[d := 1];
    var k := d + (d - s);
    CopiedAt(m, d, s, n, k);
    ModUnique(d - s, d - s, 1, 0);
    assert OctetCopy(m, d, s, n)[k] == m[s] == 0 && m[s + (k - d)] == 1;
  }

  lemma CopyMoves(m: Octets, d: nat, s: nat, n: nat)
    requires Spans(m, d, s, n) && (s >= d || s + n <= d)
    ensures IsMoved(m, OctetCopy(m, d, s, n), d, s, n)
  {
    forall k | 0 <= k < |m|
      ensures OctetCopy(m, d, s, n)[k] == if d <= k < d + n then m[s + (k - d)] else m[k]
    {
      CopiedAt(m, d, s, n, k);
      if s < d && d <= k < d + n { Repeats(k - d, d - s); }
    }
  }

  predicate WordsApart(d: nat, s: nat) { d + ALIGN <= s || s + ALIGN <= d }

  /** Copying a word that does not overlap its destination is copying its octets upwards. */
  lemma WordCopy(m: Octets, d: nat, s: nat)
    requires WordAt(m, d) && WordAt(m, s) && WordsApart(d, s)
    ensures Stored(m, d, Load(m, s)) == OctetCopy(m, d, s, ALIGN)
  {
    OctetsOfWord(m[s], m[s + 1], m[s + 2], m[s + 3]);
    FourOctets(m, d, s);
  }

  lemma FourOctets(m: Octets, d: nat, s: nat)
    requires d + 4 <= |m| && s + 4 <= |m| && WordsApart(d, s)
    ensures OctetCopy(m, d, s, 4) == m[d := m[s]][d + 1 := m[s + 1]][d + 2 := m[s + 2]][d + 3 := m[s + 3]]
  {
    assert OctetCopy(m, d, s, 1) == m[d := m[s]];
    assert OctetCopy(m, d, s, 2) == m[d := m[s]][d + 1 := m[s + 1]];
    assert OctetCopy(m, d, s, 3) == m[d := m[s]][d + 1 := m[s + 1]][d + 2 := m[s + 2]];
  }

  method CopyWord(mem: array<bv8>, d: nat, s: nat)
    requires WordAt(mem[..], d) && WordAt(mem[..], s) && WordsApart(d, s)
    modifies mem
    ensures mem[..] == OctetCopy(old(mem[..]), d, s, ALIGN)
  {
    var w := LoadWord(mem, s);
    StoreWord(mem, d, w);
    WordCopy(old(mem[..]), d, s);
  }

  method CopyOctet(mem: array<bv8>, d: nat, s: nat)
    requires d < mem.Length && s < mem.Length
    modifies mem
    ensures mem[..] == old(mem[..])[d := old(mem[..])[s]]
  {
    mem[d] := mem[s];
  }

  /** The leading octets, up to the next word boundary of the destination. */
  method CopyLeading(mem: array<bv8>, d: nat, s: nat, size: nat) returns (done: nat)
    requires Spans(mem[..], d, s, size)
    modifies mem
    ensures done <= size && (done < size ==> (d + done) % ALIGN == 0)
    ensures mem[..] == OctetCopy(old(mem[..]), d, s, done)
  {
    done := 0;
    var i := d % ALIGN;
    if i != 0 {
      while done < size && i < ALIGN
        invariant done <= size && i == d % ALIGN + done <= ALIGN
        invariant mem[..] == OctetCopy(old(mem[..]), d, s, done)
      {
        CopyOctet(mem, d + done, s + done);
        done, i := done + 1, i + 1;
      }
    }
  }

  lemma AlignedSum(a: nat, n: nat)
    requires a % ALIGN == 0 && n % ALIGN == 0
    ensures (a + n) % ALIGN == 0
  {
  }

  /** The aligned words. */
  method CopyWords(mem: array<bv8>, d: nat, s: nat, size: nat) returns (done: nat)
    requires Spans(mem[..], d, s, size) && (size > 0 ==> d % ALIGN == 0 && s % ALIGN == 0 && WordsApart(d, s))
    modifies mem
    ensures done <= size < done + ALIGN
    ensures mem[..] == OctetCopy(old(mem[..]), d, s, done)
  {
    done := 0;
    while size - done >= ALIGN
      invariant done <= size && done % ALIGN == 0
      invariant mem[..] == OctetCopy(old(mem[..]), d, s, done)
    {
      AlignedSum(d, done);
      AlignedSum(s, done);
      CopyWord(mem, d + done, s + done);
      OctetCopyOn(old(mem[..]), d, s, done, ALIGN);
      done := done + ALIGN;
    }
  }

  /** The trailing octets, or all of them. */
  method CopyOctets(mem: array<bv8>, d: nat, s: nat, size: nat)
    requires Spans(mem[..], d, s, size)
    modifies mem
    ensures mem[..] == OctetCopy(old(mem[..]), d, s, size)
  {
    var done := 0;
    while done < size
      invariant done <= size
      invariant mem[..] == OctetCopy(old(mem[..]), d, s, done)
    {
      CopyOctet(mem, d + done, s + done);
      done := done + 1;
    }
  }

  /** Mem_Copy. */
  method Copy(argChk: bool, mem: array<bv8>, pdest: nat, psrc: nat, size: nat)
    requires mem.Length <= WORD && pdest < WORD && psrc < WORD
    requires || size == 0 || (pdest + size <= mem.Length && psrc + size <= mem.Length)
             || (argChk && (pdest == 0 || psrc == 0))
    modifies mem
    ensures mem[..] == if argChk && (pdest == 0 || psrc == 0) then old(mem[..])
                       else OctetCopy(old(mem[..]), pdest, psrc, size)
  {
    if argChk && (size < 1 || pdest == 0 || psrc == 0) {
      return;
    }
    ghost var was := mem[..];
    var done := 0;
    var memGapOctets := Wrap(psrc - pdest);
    GapApart(pdest, psrc);
    if memGapOctets >= ALIGN && pdest % ALIGN == psrc % ALIGN {
      done := CopyAligned(mem, pdest, psrc, size);
    }
    CopyOctets(mem, pdest + done, psrc + done, size - done);
    OctetCopyOn(was, pdest, psrc, done, size - done);
  }

  /** The part of Mem_Copy for buffers with the same alignment offset. */
  method CopyAligned(mem: array<bv8>, d: nat, s: nat, size: nat) returns (done: nat)
    requires Spans(mem[..], d, s, size) && d % ALIGN == s % ALIGN && WordsApart(d, s)
    modifies mem
    ensures done <= size && mem[..] == OctetCopy(old(mem[..]), d, s, done)
  {
    ghost var was := mem[..];
    var n := CopyLeading(mem, d, s, size);
    SameOffset(d, s, n);
    var w := CopyWords(mem, d + n, s + n, size - n);
    OctetCopyOn(was, d, s, n, w);
    done := n + w;
  }

  /** Buffers with the same alignment offset and a gap of at least a word have disjoint words. */
  lemma GapApart(d: nat, s: nat)
    requires d < WORD && s < WORD
    ensures Wrap(s - d) >= ALIGN && d % ALIGN == s % ALIGN ==> WordsApart(d, s)
  {
    if s >= d { WrapSmall(s - d); }
  }

  lemma SameOffset(d: nat, s: nat, n: nat)
    requires d % ALIGN == s % ALIGN
    ensures (d + n) % ALIGN == (s + n) % ALIGN
  {
  }

  // ---------------------------------------------------------------- Mem_Move

  /** Of an ideal move, the octets from position lo on have been made. */
  ghost predicate TailMoved(m: Octets, r: Octets, d: nat, s: nat, lo: nat, n: nat)
    requires Spans(m, d, s, n)
  {
    |r| == |m| && forall k {:trigger r[k]} :: 0 <= k < |m| ==> r[k] == if d + lo <= k < d + n then m[s + (k - d)] else m[k]
  }

  /** With the source at or below the destination, moving the next octets down keeps it ideal. */
  lemma TailOn(m: Octets, r: Octets, d: nat, s: nat, lo: nat, n: nat, j: nat)
    requires Spans(m, d, s, n) && s <= d && j <= lo <= n && TailMoved(m, r, d, s, lo, n)
    requires j == 1 || (WordsApart(d, s) && j == ALIGN)
    ensures TailMoved(m, OctetCopy(r, d + lo - j, s + lo - j, j), d, s, lo - j, n)
  {
    var t := OctetCopy(r, d + lo - j, s + lo - j, j);
    if j == 1 {
      OneOctet(r, d + lo - 1, s + lo - 1);
    } else {
      FourOctets(r, d + lo - 4, s + lo - 4);
    }
  }

  /** The last octets, down to the next word boundary; rem octets are left. */
  method MoveLeading(mem: array<bv8>, d: nat, s: nat, size: nat) returns (rem: nat)
    requires Spans(mem[..], d, s, size) && s <= d
    modifies mem
    ensures rem <= size && (rem > 0 ==> (d + rem - 1) % ALIGN == ALIGN - 1)
    ensures TailMoved(old(mem[..]), mem[..], d, s, rem, size)
  {
    rem := size;
    var mod := (d + size - 1) % ALIGN;
    if mod != ALIGN - 1 {
      var i := mod;
      while rem > 0 && i >= 0
        invariant rem <= size && -1 <= i && i == mod - (size - rem)
        invariant TailMoved(old(mem[..]), mem[..], d, s, rem, size)
      {
        ghost var m := mem[..];
        CopyOctet(mem, d + rem - 1, s + rem - 1);
        OneOctet(m, d + rem - 1, s + rem - 1);
        TailOn(old(mem[..]), m, d, s, rem, size, 1);
        rem, i := rem - 1, i - 1;
      }
      if rem > 0 { BoundaryBelow(d, size, rem, mod); }
    }
  }

  lemma BoundaryBelow(d: nat, size: nat, rem: nat, mod: nat)
    requires 0 < rem <= size && mod == (d + size - 1) % ALIGN && size - rem == mod + 1
    ensures (d + rem - 1) % ALIGN == ALIGN - 1
  {
  }

  lemma OneOctet(m: Octets, d: nat, s: nat)
    requires d < |m| && s < |m|
    ensures OctetCopy(m, d, s, 1) == m[d := m[s]]
  {
    assert OctetCopy(m, d, s, 0) == m;
  }

  lemma WordBelow(a: nat, n: nat)
    requires n >= ALIGN && (a + n) % ALIGN == 0
    ensures (a + (n - ALIGN)) % ALIGN == 0
  {
  }

  /** The n octets from a on end at a word boundary, if there are any. */
  predicate EndsAligned(a: nat, n: nat) { n > 0 ==> (a + n) % ALIGN == 0 }

  lemma WordEnd(d: nat, s: nat, n: nat)
    requires d % ALIGN == s % ALIGN && (n > 0 ==> (d + n - 1) % ALIGN == ALIGN - 1)
    ensures EndsAligned(d, n) && EndsAligned(s, n)
  {
  }

  method MoveWord(mem: array<bv8>, ghost was: Octets, d: nat, s: nat, lo: nat, n: nat)
    requires Spans(was, d, s, n) && s <= d && WordsApart(d, s) && lo + ALIGN <= n
    requires (d + lo) % ALIGN == 0 && (s + lo) % ALIGN == 0
    requires TailMoved(was, mem[..], d, s, lo + ALIGN, n)
    modifies mem
    ensures TailMoved(was, mem[..], d, s, lo, n)
  {
    TailOn(was, mem[..], d, s, lo + ALIGN, n, ALIGN);
    CopyWord(mem, d + lo, s + lo);
  }

  /** The word that ends at position hi. */
  method MoveWordBelow(mem: array<bv8>, ghost was: Octets, d: nat, s: nat, hi: nat, n: nat)
    requires Spans(was, d, s, n) && s <= d && WordsApart(d, s) && ALIGN <= hi <= n
    requires EndsAligned(d, hi) && EndsAligned(s, hi) && TailMoved(was, mem[..], d, s, hi, n)
    modifies mem
    ensures TailMoved(was, mem[..], d, s, hi - ALIGN, n)
    ensures EndsAligned(d, hi - ALIGN) && EndsAligned(s, hi - ALIGN)
  {
    WordBelow(d, hi);
    WordBelow(s, hi);
    MoveWord(mem, was, d, s, hi - ALIGN, n);
  }

  /** The aligned words, downwards. */
  method MoveWords(mem: array<bv8>, d: nat, s: nat, size: nat) returns (rem: nat)
    requires Spans(mem[..], d, s, size) && s <= d && d % ALIGN == s % ALIGN && WordsApart(d, s)
    requires size > 0 ==> (d + size - 1) % ALIGN == ALIGN - 1
    modifies mem
    ensures rem <= size && rem < ALIGN
    ensures TailMoved(old(mem[..]), mem[..], d, s, rem, size)
  {
    ghost var was := mem[..];
    rem := size;
    WordEnd(d, s, size);
    while rem >= ALIGN
      invariant rem <= size && EndsAligned(d, rem) && EndsAligned(s, rem)
      invariant TailMoved(was, mem[..], d, s, rem, size)
    {
      MoveWordBelow(mem, was, d, s, rem, size);
      rem := rem - ALIGN;
    }
  }

  /** The octets that are left, downwards. */
  method MoveOctets(mem: array<bv8>, d: nat, s: nat, size: nat)
    requires Spans(mem[..], d, s, size) && s <= d
    modifies mem
    ensures IsMoved(old(mem[..]), mem[..], d, s, size)
  {
    var rem: nat := size;
    while rem > 0
      invariant 0 <= rem <= size
      invariant TailMoved(old(mem[..]), mem[..], d, s, rem, size)
    {
      ghost var m := mem[..];
      CopyOctet(mem, d + rem - 1, s + rem - 1);
      OneOctet(m, d + rem - 1, s + rem - 1);
      TailOn(old(mem[..]), m, d, s, rem, size, 1);
      rem := rem - 1;
    }
  }

  /** Two parts of a downward move make a longer one. */
  lemma TailsJoin(m: Octets, r: Octets, t: Octets, d: nat, s: nat, lo: nat, mid: nat, n: nat)
    requires Spans(m, d, s, n) && s <= d && lo <= mid <= n
    requires TailMoved(m, r, d, s, mid, n) && Spans(r, d, s, mid) && TailMoved(r, t, d, s, lo, mid)
    ensures TailMoved(m, t, d, s, lo, n)
  {
  }

  /** Mem_Move: the ideal move for every address, size, alignment and overlap. */
  method Move(argChk: bool, mem: array<bv8>, pdest: nat, psrc: nat, size: nat)
    requires mem.Length <= WORD && pdest < WORD && psrc < WORD
    requires || size == 0 || (pdest + size <= mem.Length && psrc + size <= mem.Length)
             || (argChk && (pdest == 0 || psrc == 0))
    modifies mem
    ensures argChk && (pdest == 0 || psrc == 0) ==> mem[..] == old(mem[..])
    ensures !(argChk && (pdest == 0 || psrc == 0)) ==>
              && IsMoved(old(mem[..]), mem[..], pdest, psrc, size)
              && forall k :: 0 <= k < mem.Length ==>
                   mem[k] == if pdest <= k < pdest + size then old(mem[psrc + (k - pdest)]) else old(mem[k])
  {
    if argChk && (size < 1 || pdest == 0 || psrc == 0) {
      return;
    }
    if psrc > pdest {
      Copy(argChk, mem, pdest, psrc, size);
      CopyMoves(old(mem[..]), pdest, psrc, size);
      return;
    }
    MoveDown(mem, pdest, psrc, size);
  }

  /** The rest of Mem_Move, for a source at or below the destination. */
  method MoveDown(mem: array<bv8>, d: nat, s: nat, size: nat)
    requires Spans(mem[..], d, s, size) && s <= d
    modifies mem
    ensures IsMoved(old(mem[..]), mem[..], d, s, size)
  {
    ghost var was := mem[..];
    var rem := size;
    var memGapOctets := d - s;
    if memGapOctets >= ALIGN && (d + size - 1) % ALIGN == (s + size - 1) % ALIGN {
      rem := MoveLeading(mem, d, s, size);
      ghost var led := mem[..];
      var left := rem;
      rem := MoveWords(mem, d, s, left);
      TailsJoin(was, led, mem[..], d, s, rem, left, size);
    }
    ghost var worded := mem[..];
    MoveOctets(mem, d, s, rem);
    assert TailMoved(worded, mem[..], d, s, 0, rem);
    TailsJoin(was, worded, mem[..], d, s, 0, rem, size);
  }

  // ---------------------------------------------------------------- Mem_Cmp

  /** From position lo on the two buffers agree. */
  predicate Agree(m: Octets, p: nat, q: nat, lo: nat, n: nat)
    requires lo <= n && p + n <= |m| && q + n <= |m|
  {
    m[p + lo..p + n] == m[q + lo..q + n]
  }

  lemma AgreeOn(m: Octets, p: nat, q: nat, lo: nat, mid: nat, n: nat)
    requires lo <= mid <= n && p + n <= |m| && q + n <= |m|
    ensures Agree(m, p, q, lo, n) <==> Agree(m, p, q, lo, mid) && Agree(m, p, q, mid, n)
  {
    assert m[p + lo..p + n] == m[p + lo..p + mid] + m[p + mid..p + n];
    assert m[q + lo..q + n] == m[q + lo..q + mid] + m[q + mid..q + n];
    if Agree(m, p, q, lo, n) {
      assert m[p + lo..p + mid] == m[p + lo..p + n][..mid - lo];
      assert m[q + lo..q + mid] == m[q + lo..q + n][..mid - lo];
      assert m[p + mid..p + n] == m[p + lo..p + n][mid - lo..];
      assert m[q + mid..q + n] == m[q + lo..q + n][mid - lo..];
    }
  }

  lemma AgreeOctet(m: Octets, p: nat, q: nat, lo: nat, n: nat)
    requires lo < n && p + n <= |m| && q + n <= |m|
    ensures Agree(m, p, q, lo, n) <==> m[p + lo] == m[q + lo] && Agree(m, p, q, lo + 1, n)
  {
    AgreeOn(m, p, q, lo, lo + 1, n);
    assert m[p + lo..p + lo + 1] == [m[p + lo]] && m[q + lo..q + lo + 1] == [m[q + lo]];
  }

  lemma AgreeWord(m: Octets, p: nat, q: nat, lo: nat, n: nat)
    requires lo + ALIGN <= n && p + n <= |m| && q + n <= |m| && WordAt(m, p + lo) && WordAt(m, q + lo)
    ensures Agree(m, p, q, lo, n) <==> Load(m, p + lo) == Load(m, q + lo) && Agree(m, p, q, lo + ALIGN, n)
  {
    AgreeOn(m, p, q, lo, lo + ALIGN, n);
    EqualWords(m, p + lo, q + lo);
  }

  /** The trailing octets, down to the next word boundary. */
  method CmpTrailing(mem: array<bv8>, p1: nat, p2: nat, size: nat) returns (cmp: bool, rem: nat)
    requires p1 + size <= mem.Length && p2 + size <= mem.Length
    ensures rem <= size && (cmp ==> (rem == 0 || (p1 + rem) % ALIGN == 0))
    ensures cmp <==> Agree(mem[..], p1, p2, rem, size)
  {
    ghost var m := mem[..];
    cmp, rem := true, size;
    var i := (p1 + size) % ALIGN;
    if i != 0 {
      while cmp && rem > 0 && i > 0
        invariant rem <= size && 0 <= i && i == (p1 + size) % ALIGN - (size - rem)
        invariant cmp <==> Agree(m, p1, p2, rem, size)
        decreases rem
      {
        rem, i := rem - 1, i - 1;
        AgreeOctet(m, p1, p2, rem, size);
        if mem[p1 + rem] != mem[p2 + rem] {
          cmp := false;
        }
      }
    }
  }

  /** The words that end rem octets into the buffers, behind which the buffers agree. */
  method CmpWordBelow(mem: array<bv8>, p: nat, q: nat, rem: nat, ghost size: nat) returns (same: bool)
    requires ALIGN <= rem <= size && p + size <= mem.Length && q + size <= mem.Length
    requires (p + rem) % ALIGN == 0 && (q + rem) % ALIGN == 0 && Agree(mem[..], p, q, rem, size)
    ensures same <==> Agree(mem[..], p, q, rem - ALIGN, size)
    ensures (p + (rem - ALIGN)) % ALIGN == 0 && (q + (rem - ALIGN)) % ALIGN == 0
  {
    WordBelow(p, rem);
    WordBelow(q, rem);
    AgreeWord(mem[..], p, q, rem - ALIGN, size);
    same := CmpWord(mem, p + (rem - ALIGN), q + (rem - ALIGN));
  }

  /** One pair of aligned words. */
  method CmpWord(mem: array<bv8>, p: nat, q: nat) returns (same: bool)
    requires WordAt(mem[..], p) && WordAt(mem[..], q)
    ensures same <==> Load(mem[..], p) == Load(mem[..], q)
  {
    var w1 := LoadWord(mem, p);
    var w2 := LoadWord(mem, q);
    same := w1 == w2;
  }

  /** The aligned words, downwards. */
  method CmpWords(mem: array<bv8>, p1: nat, p2: nat, size: nat) returns (cmp: bool, rem: nat)
    requires p1 + size <= mem.Length && p2 + size <= mem.Length
    requires size > 0 ==> (p1 + size) % ALIGN == 0 && (p2 + size) % ALIGN == 0
    ensures rem <= size && (cmp <==> Agree(mem[..], p1, p2, rem, size))
  {
    ghost var m := mem[..];
    cmp, rem := true, size;
    while cmp && rem >= ALIGN
      invariant rem <= size && (rem > 0 ==> (p1 + rem) % ALIGN == 0 && (p2 + rem) % ALIGN == 0)
      invariant cmp <==> Agree(m, p1, p2, rem, size)
      decreases rem
    {
      cmp := CmpWordBelow(mem, p1, p2, rem, size);
      rem := rem - ALIGN;
    }
  }

  /** The octets that are left, downwards. */
  method CmpOctets(mem: array<bv8>, p1: nat, p2: nat, size: nat) returns (cmp: bool)
    requires p1 + size <= mem.Length && p2 + size <= mem.Length
    ensures cmp <==> Agree(mem[..], p1, p2, 0, size)
  {
    ghost var m := mem[..];
    cmp := true;
    var rem: nat := size;
    while cmp && rem > 0
      invariant rem <= size
      invariant cmp <==> Agree(m, p1, p2, rem, size)
      decreases rem
    {
      rem := rem - 1;
      AgreeOctet(m, p1, p2, rem, size);
      if mem[p1 + rem] != mem[p2 + rem] {
        cmp := false;
      }
    }
    AgreeOn(m, p1, p2, 0, rem, size);
  }

  /** The rest of Mem_Cmp, for two buffers. */
  method CmpBuffers(mem: array<bv8>, p1: nat, p2: nat, size: nat) returns (cmp: bool)
    requires p1 + size <= mem.Length && p2 + size <= mem.Length
    ensures cmp <==> Agree(mem[..], p1, p2, 0, size)
  {
    ghost var m := mem[..];
    cmp := true;
    var rem := size;
    if (p1 + size) % ALIGN == (p2 + size) % ALIGN {
      cmp, rem := CmpTrailing(mem, p1, p2, size);
      if cmp {
        var left := rem;
        SameOffsetBelow(p1, p2, size, left);
        cmp, rem := CmpWords(mem, p1, p2, left);
        AgreeOn(m, p1, p2, rem, left, size);
      }
    }
    AgreeOn(m, p1, p2, 0, rem, size);
    if cmp {
      cmp := CmpOctets(mem, p1, p2, rem);
    }
  }

  lemma SameOffsetBelow(p: nat, q: nat, n: nat, j: nat)
    requires (p + n) % ALIGN == (q + n) % ALIGN
    ensures (p + j) % ALIGN == (q + j) % ALIGN
  {
  }

  /** Mem_Cmp: yes exactly when every octet of the buffers is equal; a null buffer equals nothing
      but the empty one. */
  method Cmp(mem: array<bv8>, p1: nat, p2: nat, size: nat) returns (cmp: bool)
    requires size == 0 || p1 == 0 || p2 == 0 || (p1 + size <= mem.Length && p2 + size <= mem.Length)
    ensures size == 0 ==> cmp
    ensures size > 0 && (p1 == 0 || p2 == 0) ==> !cmp
    ensures size > 0 && p1 > 0 && p2 > 0 ==> (cmp <==> mem[p1..p1 + size] == mem[p2..p2 + size])
  {
    if size < 1 {
      return true;
    }
    if p1 == 0 || p2 == 0 {
      return false;
    }
    cmp := CmpBuffers(mem, p1, p2, size);
    assert mem[..][p1 + 0..p1 + size] == mem[p1..p1 + size];
    assert mem[..][p2 + 0..p2 + size] == mem[p2..p2 + size];
  }
}
