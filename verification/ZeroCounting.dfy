/** UCOSIII/uC-CPU/cpu_core.c: counting leading and trailing zero bits without a CPU instruction. */
module ZeroCounting {
  import opened WordArithmetic

  lemma {:induction false} Pow2Sum(m: nat, n: nat)
    ensures Pow2(m + n) == Pow2(m) * Pow2(n)
    decreases n
  {
    if n > 0 { Pow2Sum(m, n - 1); }
  }

  lemma {:induction false} Pow2Grows(m: nat, n: nat)
    requires m < n
    ensures 2 * Pow2(m) <= Pow2(n)
    decreases n
  {
    if m < n - 1 { Pow2Grows(m, n - 1); }
  }

  /** The word sizes of the counters, in bits. */
  predicate Size(w: nat) { w == 8 || w == 16 || w == 32 || w == 64 }

  // ---------------------------------------------------------------- leading zeros

  /** z is the number of zero bits in front of the first one bit of a w-bit value. */
  ghost predicate IsLeadZeros(w: nat, val: nat, z: nat) {
    z <= w && val < Pow2(w - z) && (z < w ==> Pow2(w - z - 1) <= val)
  }

  lemma LeadZerosUnique(w: nat, val: nat, y: nat, z: nat)
    requires IsLeadZeros(w, val, y) && IsLeadZeros(w, val, z)
    ensures y == z
  {
    if y < z && w - z < w - y - 1 { Pow2Grows(w - z, w - y - 1); }
    if z < y && w - y < w - z - 1 { Pow2Grows(w - y, w - z - 1); }
  }

  /** CPU_CntLeadZerosTbl: one function for each row of 16 entries. */
  function CntLeadZerosTbl(ix: nat): nat
    requires ix < 256
  {
    var c := ix % 16;
    match ix / 16
    case 0 => Row0(c)
    case 1 => Row1(c)
    case 2 => Row2(c)
    case 3 => Row3(c)
    case 4 => Row4(c)
    case 5 => Row5(c)
    case 6 => Row6(c)
    case 7 => Row7(c)
    case 8 => Row8(c)
    case 9 => Row9(c)
    case 10 => RowA(c)
    case 11 => RowB(c)
    case 12 => RowC(c)
    case 13 => RowD(c)
    case 14 => RowE(c)
    case _ => RowF(c)
  }

  function Row0(c: nat): nat {
    match c
    case 0 => 8 case 1 => 7 case 2 => 6 case 3 => 6 case 4 => 5 case 5 => 5 case 6 => 5 case 7 => 5
    case 8 => 4 case 9 => 4 case 10 => 4 case 11 => 4 case 12 => 4 case 13 => 4 case 14 => 4 case _ => 4
  }

  function Row1(c: nat): nat {
    match c
    case 0 => 3 case 1 => 3 case 2 => 3 case 3 => 3 case 4 => 3 case 5 => 3 case 6 => 3 case 7 => 3
    case 8 => 3 case 9 => 3 case 10 => 3 case 11 => 3 case 12 => 3 case 13 => 3 case 14 => 3 case _ => 3
  }

  function Row2(c: nat): nat {
    match c
    case 0 => 2 case 1 => 2 case 2 => 2 case 3 => 2 case 4 => 2 case 5 => 2 case 6 => 2 case 7 => 2
    case 8 => 2 case 9 => 2 case 10 => 2 case 11 => 2 case 12 => 2 case 13 => 2 case 14 => 2 case _ => 2
  }

  function Row3(c: nat): nat {
    match c
    case 0 => 2 case 1 => 2 case 2 => 2 case 3 => 2 case 4 => 2 case 5 => 2 case 6 => 2 case 7 => 2
    case 8 => 2 case 9 => 2 case 10 => 2 case 11 => 2 case 12 => 2 case 13 => 2 case 14 => 2 case _ => 2
  }

  function Row4(c: nat): nat {
    match c
    case 0 => 1 case 1 => 1 case 2 => 1 case 3 => 1 case 4 => 1 case 5 => 1 case 6 => 1 case 7 => 1
    case 8 => 1 case 9 => 1 case 10 => 1 case 11 => 1 case 12 => 1 case 13 => 1 case 14 => 1 case _ => 1
  }

  function Row5(c: nat): nat {
    match c
    case 0 => 1 case 1 => 1 case 2 => 1 case 3 => 1 case 4 => 1 case 5 => 1 case 6 => 1 case 7 => 1
    case 8 => 1 case 9 => 1 case 10 => 1 case 11 => 1 case 12 => 1 case 13 => 1 case 14 => 1 case _ => 1
  }

  function Row6(c: nat): nat {
    match c
    case 0 => 1 case 1 => 1 case 2 => 1 case 3 => 1 case 4 => 1 case 5 => 1 case 6 => 1 case 7 => 1
    case 8 => 1 case 9 => 1 case 10 => 1 case 11 => 1 case 12 => 1 case 13 => 1 case 14 => 1 case _ => 1
  }

  function Row7(c: nat): nat {
    match c
    case 0 => 1 case 1 => 1 case 2 => 1 case 3 => 1 case 4 => 1 case 5 => 1 case 6 => 1 case 7 => 1
    case 8 => 1 case 9 => 1 case 10 => 1 case 11 => 1 case 12 => 1 case 13 => 1 case 14 => 1 case _ => 1
  }

  function Row8(c: nat): nat {
    match c
    case 0 => 0 case 1 => 0 case 2 => 0 case 3 => 0 case 4 => 0 case 5 => 0 case 6 => 0 case 7 => 0
    case 8 => 0 case 9 => 0 case 10 => 0 case 11 => 0 case 12 => 0 case 13 => 0 case 14 => 0 case _ => 0
  }

  function Row9(c: nat): nat {
    match c
    case 0 => 0 case 1 => 0 case 2 => 0 case 3 => 0 case 4 => 0 case 5 => 0 case 6 => 0 case 7 => 0
    case 8 => 0 case 9 => 0 case 10 => 0 case 11 => 0 case 12 => 0 case 13 => 0 case 14 => 0 case _ => 0
  }

  function RowA(c: nat): nat {
    match c
    case 0 => 0 case 1 => 0 case 2 => 0 case 3 => 0 case 4 => 0 case 5 => 0 case 6 => 0 case 7 => 0
    case 8 => 0 case 9 => 0 case 10 => 0 case 11 => 0 case 12 => 0 case 13 => 0 case 14 => 0 case _ => 0
  }

  function RowB(c: nat): nat {
    match c
    case 0 => 0 case 1 => 0 case 2 => 0 case 3 => 0 case 4 => 0 case 5 => 0 case 6 => 0 case 7 => 0
    case 8 => 0 case 9 => 0 case 10 => 0 case 11 => 0 case 12 => 0 case 13 => 0 case 14 => 0 case _ => 0
  }

  function RowC(c: nat): nat {
    match c
    case 0 => 0 case 1 => 0 case 2 => 0 case 3 => 0 case 4 => 0 case 5 => 0 case 6 => 0 case 7 => 0
    case 8 => 0 case 9 => 0 case 10 => 0 case 11 => 0 case 12 => 0 case 13 => 0 case 14 => 0 case _ => 0
  }

  function RowD(c: nat): nat {
    match c
    case 0 => 0 case 1 => 0 case 2 => 0 case 3 => 0 case 4 => 0 case 5 => 0 case 6 => 0 case 7 => 0
    case 8 => 0 case 9 => 0 case 10 => 0 case 11 => 0 case 12 => 0 case 13 => 0 case 14 => 0 case _ => 0
  }

  function RowE(c: nat): nat {
    match c
    case 0 => 0 case 1 => 0 case 2 => 0 case 3 => 0 case 4 => 0 case 5 => 0 case 6 => 0 case 7 => 0
    case 8 => 0 case 9 => 0 case 10 => 0 case 11 => 0 case 12 => 0 case 13 => 0 case 14 => 0 case _ => 0
  }

  function RowF(c: nat): nat {
    match c
    case 0 => 0 case 1 => 0 case 2 => 0 case 3 => 0 case 4 => 0 case 5 => 0 case 6 => 0 case 7 => 0
    case 8 => 0 case 9 => 0 case 10 => 0 case 11 => 0 case 12 => 0 case 13 => 0 case 14 => 0 case _ => 0
  }

  /** All 256 entries of the table. */
  lemma TblIsLeadZeros(ix: nat)
    requires ix < 256
    ensures IsLeadZeros(8, ix, CntLeadZerosTbl(ix))
  {
    Octet2();
  }

  lemma Octet2()
    ensures Pow2(0) == 1 && Pow2(1) == 2 && Pow2(2) == 4 && Pow2(3) == 8 && Pow2(4) == 16
    ensures Pow2(5) == 32 && Pow2(6) == 64 && Pow2(7) == 128 && Pow2(8) == 256
  {
  }

  /** The C branch of CPU_CntLeadZeros08. */
  function CntLeadZeros08(val: nat): nat
    requires val < 0x100
  {
    CntLeadZerosTbl(val) + 0
  }

  /** The C branch of CPU_CntLeadZeros16. */
  function CntLeadZeros16(val: nat): nat
    requires val < 0x1_0000
  {
    if val > 0x00FF then CntLeadZerosTbl(val / 0x100) + 0 else CntLeadZerosTbl(val) + 8
  }

  /** The C branch of CPU_CntLeadZeros32. */
  function CntLeadZeros32(val: nat): nat
    requires val < 0x1_0000_0000
  {
    if val > 0x0000_FFFF then
      if val > 0x00FF_FFFF then CntLeadZerosTbl(val / 0x100_0000) + 0 else CntLeadZerosTbl(val / 0x1_0000) + 8
    else
      if val > 0x0000_00FF then CntLeadZerosTbl(val / 0x100) + 16 else CntLeadZerosTbl(val) + 24
  }

  /** The C branch of CPU_CntLeadZeros64, whose two halves are functions of their own. */
  function CntLeadZeros64(val: nat): nat
    requires val < 0x1_0000_0000_0000_0000
  {
    if val > 0x0000_0000_FFFF_FFFF then UpperHalf(val) else LowerHalf(val)
  }

  function UpperHalf(val: nat): nat
    requires 0x0000_0000_FFFF_FFFF < val < 0x1_0000_0000_0000_0000
  {
    if val > 0x0000_FFFF_FFFF_FFFF then
      if val > 0x00FF_FFFF_FFFF_FFFF then CntLeadZerosTbl(val / 0x100_0000_0000_0000) + 0
      else CntLeadZerosTbl(val / 0x1_0000_0000_0000) + 8
    else
      if val > 0x0000_00FF_FFFF_FFFF then CntLeadZerosTbl(val / 0x100_0000_0000) + 16
      else CntLeadZerosTbl(val / 0x1_0000_0000) + 24
  }

  function LowerHalf(val: nat): nat
    requires val < 0x1_0000_0000
  {
    if val > 0x0000_0000_0000_FFFF then
      if val > 0x0000_0000_00FF_FFFF then CntLeadZerosTbl(val / 0x100_0000) + 32
      else CntLeadZerosTbl(val / 0x1_0000) + 40
    else
      if val > 0x0000_0000_0000_00FF then CntLeadZerosTbl(val / 0x100) + 48
      else CntLeadZerosTbl(val) + 56
  }

  function CntLeadZeros(w: nat, val: nat): nat
    requires Size(w) && val < Pow2(w)
  {
    WordPowers();
    if w == 8 then CntLeadZeros08(val)
    else if w == 16 then CntLeadZeros16(val)
    else if w == 32 then CntLeadZeros32(val)
    else CntLeadZeros64(val)
  }

  lemma WordPowers()
    ensures Pow2(8) == 0x100 && Pow2(16) == 0x1_0000 && Pow2(24) == 0x100_0000 && Pow2(32) == 0x1_0000_0000
    ensures Pow2(40) == 0x100_0000_0000 && Pow2(48) == 0x1_0000_0000_0000 && Pow2(56) == 0x100_0000_0000_0000
    ensures Pow2(64) == 0x1_0000_0000_0000_0000
  {
    Octet2();
    Pow2Sum(8, 8);
    Pow2Sum(16, 8);
    Pow2Sum(16, 16);
    Pow2Sum(32, 8);
    Pow2Sum(32, 16);
    Pow2Sum(32, 24);
    Pow2Sum(32, 32);
  }

  /** Looking up the highest octet that is not zero, k bits up, counts the whole word. */
  lemma LookedUp(w: nat, val: nat, k: nat, p: nat)
    requires k + 8 <= w && p == Pow2(k) && val < p * 256 && (k == 0 || p <= val)
    ensures val / p < 256 && IsLeadZeros(w, val, CntLeadZerosTbl(val / p) + (w - 8 - k))
  {
    var ix := OctetAbove(val, p);
    TblIsLeadZeros(ix);
    Scaled(w, val, k, p, ix, CntLeadZerosTbl(ix));
  }

  lemma OctetAbove(val: nat, p: nat) returns (ix: nat)
    requires p > 0 && val < p * 256
    ensures ix == val / p < 256 && (p <= val ==> 1 <= ix)
  {
    ix := val / p;
    ProductBounds(val, p, 256);
    ProductBounds(val, p, 1);
  }

  lemma Scaled(w: nat, val: nat, k: nat, p: nat, ix: nat, z: nat)
    requires k + 8 <= w && p == Pow2(k) && ix == val / p && IsLeadZeros(8, ix, z) && (k == 0 || 1 <= ix)
    ensures IsLeadZeros(w, val, z + (w - 8 - k))
  {
    Pow2Sum(8 - z, k);
    ProductBounds(val, p, Pow2(8 - z));
    if z < 8 {
      Pow2Sum(7 - z, k);
      ProductBounds(val, p, Pow2(7 - z));
    }
  }

  lemma Monotone(a: nat, b: nat, p: nat)
    requires a <= b
    ensures a * p <= b * p
  {
    assert b * p == a * p + (b - a) * p;
  }

  /** Comparing the quotient with x is comparing the value with x * p. */
  lemma ProductBounds(val: nat, p: nat, x: nat)
    requires p > 0
    ensures (val / p < x <==> val < x * p) && (x <= val / p <==> x * p <= val)
  {
    var ix := val / p;
    assert val == ix * p + val % p;
    if ix < x { Monotone(ix + 1, x, p); } else { Monotone(x, ix, p); }
  }

  lemma Exact08(val: nat)
    requires val < 0x100
    ensures IsLeadZeros(8, val, CntLeadZeros08(val))
  {
    LookedUp(8, val, 0, Pow2(0));
  }

  lemma Exact16(val: nat)
    requires val < 0x1_0000
    ensures IsLeadZeros(16, val, CntLeadZeros16(val))
  {
    Octet2();
    if val > 0x00FF { LookedUp(16, val, 8, 0x100); } else { LookedUp(16, val, 0, Pow2(0)); }
  }

  lemma Exact32(val: nat)
    requires val < 0x1_0000_0000
    ensures IsLeadZeros(32, val, CntLeadZeros32(val))
  {
    WordPowers();
    if val > 0x00FF_FFFF { LookedUp(32, val, 24, 0x100_0000); }
    else if val > 0x0000_FFFF { LookedUp(32, val, 16, 0x1_0000); }
    else if val > 0x0000_00FF { LookedUp(32, val, 8, 0x100); }
    else { LookedUp(32, val, 0, Pow2(0)); }
  }

  lemma ExactUpper(val: nat)
    requires 0xFFFF_FFFF < val < 0x1_0000_0000_0000_0000
    ensures IsLeadZeros(64, val, UpperHalf(val))
  {
    WordPowers();
    if val > 0x00FF_FFFF_FFFF_FFFF { LookedUp(64, val, 56, 0x100_0000_0000_0000); }
    else if val > 0x0000_FFFF_FFFF_FFFF { LookedUp(64, val, 48, 0x1_0000_0000_0000); }
    else if val > 0x0000_00FF_FFFF_FFFF { LookedUp(64, val, 40, 0x100_0000_0000); }
    else { LookedUp(64, val, 32, 0x1_0000_0000); }
  }

  lemma ExactLower(val: nat)
    requires val < 0x1_0000_0000
    ensures IsLeadZeros(64, val, LowerHalf(val))
  {
    WordPowers();
    if val > 0x00FF_FFFF { LookedUp(64, val, 24, 0x100_0000); }
    else if val > 0x0000_FFFF { LookedUp(64, val, 16, 0x1_0000); }
    else if val > 0x0000_00FF { LookedUp(64, val, 8, 0x100); }
    else { LookedUp(64, val, 0, Pow2(0)); }
  }

  /** The table tree counts the leading zeros of every value of every word size. */
  lemma CntLeadZerosExact(w: nat, val: nat)
    requires Size(w) && val < Pow2(w)
    ensures IsLeadZeros(w, val, CntLeadZeros(w, val))
  {
    WordPowers();
    if w == 8 { Exact08(val); }
    else if w == 16 { Exact16(val); }
    else if w == 32 { Exact32(val); }
    else if val > 0xFFFF_FFFF { ExactUpper(val); }
    else { ExactLower(val); }
  }

  /** On a processor with a native 32-bit count, the narrower counters adjust its result by the
      width difference; that agrees with the table. */
  lemma NativeCountAgrees(w: nat, val: nat, native: nat)
    requires Size(w) && w <= 32 && val < Pow2(w) && IsLeadZeros(32, val, native)
    ensures native >= 32 - w && native - (32 - w) == CntLeadZeros(w, val)
  {
    var z := CountOf(w, val);
    WidthAdjusted(w, val, z, native);
  }

  lemma WidthAdjusted(w: nat, val: nat, z: nat, native: nat)
    requires w <= 32 && IsLeadZeros(w, val, z) && IsLeadZeros(32, val, native)
    ensures native == z + (32 - w)
  {
    assert IsLeadZeros(32, val, z + (32 - w));
    LeadZerosUnique(32, val, native, z + (32 - w));
  }

  // ---------------------------------------------------------------- trailing zeros

  /** The bitwise and of two unsigned integers. */
  function And(a: nat, b: nat): nat {
    if a == 0 || b == 0 then 0 else 2 * And(a / 2, b / 2) + (a % 2) * (b % 2)
  }

  /** ~val + 1 in a w-bit word. */
  function Negated(w: nat, val: nat): nat
    requires val < Pow2(w)
  {
    (Pow2(w) - 1 - val + 1) % Pow2(w)
  }

  /** 2^t is the largest power of two that divides val. */
  ghost predicate IsTrailZeros(val: nat, t: nat) {
    val % Pow2(t) == 0 && val / Pow2(t) % 2 == 1
  }

  /** A value and its complement have no bit in common. */
  lemma {:induction false} ComplementDisjoint(w: nat, val: nat)
    requires val < Pow2(w)
    ensures And(val, Pow2(w) - 1 - val) == 0
    decreases w
  {
    if w > 0 {
      var c := Pow2(w) - 1 - val;
      assert c / 2 == Pow2(w - 1) - 1 - val / 2 && (val % 2) * (c % 2) == 0;
      ComplementDisjoint(w - 1, val / 2);
    }
  }

  lemma OddLowest(w: nat, val: nat)
    requires 0 < w && val < Pow2(w) && val % 2 == 1
    ensures And(val, Pow2(w) - val) == 1
  {
    var c := Pow2(w) - val;
    assert c / 2 == Pow2(w - 1) - 1 - val / 2 && c % 2 == 1;
    ComplementDisjoint(w - 1, val / 2);
  }

  lemma EvenLowest(w: nat, val: nat)
    requires 0 < w && 0 < val < Pow2(w) && val % 2 == 0
    ensures And(val, Pow2(w) - val) == 2 * And(val / 2, Pow2(w - 1) - val / 2)
  {
    var c := Pow2(w) - val;
    assert c / 2 == Pow2(w - 1) - val / 2 && c % 2 == 0;
  }

  /** val & (~val + 1) keeps exactly the lowest one bit. */
  lemma {:induction false} LowestBit(w: nat, val: nat) returns (t: nat)
    requires 0 < val < Pow2(w)
    ensures t < w && And(val, Pow2(w) - val) == Pow2(t) && val % Pow2(t) == 0 && val / Pow2(t) % 2 == 1
    decreases w
  {
    if val % 2 == 1 {
      OddLowest(w, val);
      t := 0;
    } else {
      EvenLowest(w, val);
      var u := LowestBit(w - 1, val / 2);
      t := u + 1;
      Doubled(val / 2, Pow2(u));
    }
  }

  lemma Doubled(half: nat, p: nat)
    requires p > 0 && half % p == 0
    ensures (2 * half) % (2 * p) == 0 && (2 * half) / (2 * p) == half / p
  {
    var q := half / p;
    assert 2 * half == q * (2 * p);
    ModUnique(2 * half, 2 * p, q, 0);
  }

  /** CPU_CntTrailZeros08, 16, 32 and 64. */
  function CntTrailZeros(w: nat, val: nat): int
    requires Size(w) && val < Pow2(w)
  {
    if val == 0 then w
    else
      BitMaskFits(w, val);
      (w - 1) - CntLeadZeros(w, BitMask(w, val))
  }

  /** val_bit_mask. */
  function BitMask(w: nat, val: nat): nat
    requires val < Pow2(w)
  {
    And(val, Negated(w, val))
  }

  lemma BitMaskFits(w: nat, val: nat)
    requires 0 < val < Pow2(w)
    ensures BitMask(w, val) < Pow2(w)
  {
    var t := BitMaskIs(w, val);
    Pow2Grows(t, w);
  }

  lemma BitMaskIs(w: nat, val: nat) returns (t: nat)
    requires 0 < val < Pow2(w)
    ensures t < w && BitMask(w, val) == Pow2(t) && IsTrailZeros(val, t)
  {
    t := LowestBit(w, val);
    SmallModulus(Pow2(w) - val, Pow2(w));
  }

  lemma PowerCounted(w: nat, t: nat)
    requires Size(w) && t < w
    ensures Pow2(t) < Pow2(w) && CntLeadZeros(w, Pow2(t)) == w - 1 - t
  {
    Pow2Grows(t, w);
    PowerCountedAs(w, t, Pow2(t));
  }

  lemma PowerCountedAs(w: nat, t: nat, p: nat)
    requires Size(w) && t < w && p == Pow2(t) < Pow2(w)
    ensures CntLeadZeros(w, p) == w - 1 - t
  {
    var z := CountOf(w, p);
    PowerLeads(w, t, z);
  }

  lemma CountOf(w: nat, val: nat) returns (z: nat)
    requires Size(w) && val < Pow2(w)
    ensures z == CntLeadZeros(w, val) && IsLeadZeros(w, val, z)
  {
    CntLeadZerosExact(w, val);
    z := CntLeadZeros(w, val);
  }

  lemma PowerLeads(w: nat, t: nat, z: nat)
    requires t < w && IsLeadZeros(w, Pow2(t), z)
    ensures z == w - 1 - t
  {
    assert IsLeadZeros(w, Pow2(t), w - 1 - t);
    LeadZerosUnique(w, Pow2(t), w - 1 - t, z);
  }

  lemma SmallModulus(x: nat, p: nat)
    requires x < p
    ensures x % p == x
  {
  }

  /** The trailing count of a non-zero value is the largest t for which 2^t divides it; the count
      of zero is the word size. */
  lemma CntTrailZerosExact(w: nat, val: nat)
    requires Size(w) && val < Pow2(w)
    ensures val == 0 ==> CntTrailZeros(w, val) == w
    ensures val != 0 ==> 0 <= CntTrailZeros(w, val) < w && IsTrailZeros(val, CntTrailZeros(w, val))
  {
    if val != 0 {
      var t := BitMaskIs(w, val);
      PowerCounted(w, t);
      assert CntTrailZeros(w, val) == t;
    }
  }

  /** A multiple of p * x is a multiple of p. */
  lemma Factor(val: nat, q: nat, p: nat, x: nat)
    requires p > 0 && val == q * (p * x)
    ensures val % p == 0 && val / p == q * x
  {
    assert q * (p * x) == (q * x) * p;
    ModUnique(val, p, q * x, 0);
  }

  lemma Divided(val: nat, r: nat, p: nat, x: nat)
    requires p > 0 && r > 0 && r == p * x && val % r == 0
    ensures val % p == 0 && val / p == (val / r) * x
  {
    assert val == (val / r) * r;
    Factor(val, val / r, p, x);
  }

  lemma EvenProduct(q: nat, x: nat)
    ensures (q * (2 * x)) % 2 == 0
  {
    assert q * (2 * x) == 2 * (q * x);
  }

  /** 2^n divides a value exactly up to its trailing count. */
  lemma DividesIffTrailing(val: nat, t: nat, n: nat)
    requires IsTrailZeros(val, t)
    ensures val % Pow2(n) == 0 <==> n <= t
  {
    if n <= t {
      Pow2Sum(n, t - n);
      Divided(val, Pow2(t), Pow2(n), Pow2(t - n));
    } else if val % Pow2(n) == 0 {
      Pow2Sum(t, n - t);
      Divided(val, Pow2(n), Pow2(t), Pow2(n - t));
      EvenProduct(val / Pow2(n), Pow2(n - t - 1));
    }
  }

  /** The width of the word does not matter to the trailing count of a non-zero value. */
  lemma TrailingAgrees(v: nat, w: nat, val: nat)
    requires Size(v) && Size(w) && 0 < val < Pow2(v) && val < Pow2(w)
    ensures CntTrailZeros(v, val) == CntTrailZeros(w, val)
  {
    CntTrailZerosExact(v, val);
    CntTrailZerosExact(w, val);
    DividesIffTrailing(val, CntTrailZeros(v, val), CntTrailZeros(w, val));
    DividesIffTrailing(val, CntTrailZeros(w, val), CntTrailZeros(v, val));
  }
}
