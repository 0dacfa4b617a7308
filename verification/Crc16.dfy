/** HARDWARE/CAN/crc16.h: the table-driven CRC-16/XMODEM is the remainder of polynomial
    division over GF(2), and therefore detects certain families of errors. */
module Crc16 {

  // ---------------------------------------------------------------- the program

  /** crc16tab, laid out as sixteen rows of sixteen entries. */
  function Crc16Tab(ix: bv8): bv16 {
    match ix >> 4
    case 0x0 => (
      match ix & 0x0F
      case 0x0 => 0x0000 case 0x1 => 0x1021 case 0x2 => 0x2042 case 0x3 => 0x3063 case 0x4 => 0x4084 case 0x5 => 0x50a5 case 0x6 => 0x60c6 case 0x7 => 0x70e7
      case 0x8 => 0x8108 case 0x9 => 0x9129 case 0xa => 0xa14a case 0xb => 0xb16b case 0xc => 0xc18c case 0xd => 0xd1ad case 0xe => 0xe1ce case _ => 0xf1ef)
    case 0x1 => (
      match ix & 0x0F
      case 0x0 => 0x1231 case 0x1 => 0x0210 case 0x2 => 0x3273 case 0x3 => 0x2252 case 0x4 => 0x52b5 case 0x5 => 0x4294 case 0x6 => 0x72f7 case 0x7 => 0x62d6
      case 0x8 => 0x9339 case 0x9 => 0x8318 case 0xa => 0xb37b case 0xb => 0xa35a case 0xc => 0xd3bd case 0xd => 0xc39c case 0xe => 0xf3ff case _ => 0xe3de)
    case 0x2 => (
      match ix & 0x0F
      case 0x0 => 0x2462 case 0x1 => 0x3443 case 0x2 => 0x0420 case 0x3 => 0x1401 case 0x4 => 0x64e6 case 0x5 => 0x74c7 case 0x6 => 0x44a4 case 0x7 => 0x5485
      case 0x8 => 0xa56a case 0x9 => 0xb54b case 0xa => 0x8528 case 0xb => 0x9509 case 0xc => 0xe5ee case 0xd => 0xf5cf case 0xe => 0xc5ac case _ => 0xd58d)
    case 0x3 => (
      match ix & 0x0F
      case 0x0 => 0x3653 case 0x1 => 0x2672 case 0x2 => 0x1611 case 0x3 => 0x0630 case 0x4 => 0x76d7 case 0x5 => 0x66f6 case 0x6 => 0x5695 case 0x7 => 0x46b4
      case 0x8 => 0xb75b case 0x9 => 0xa77a case 0xa => 0x9719 case 0xb => 0x8738 case 0xc => 0xf7df case 0xd => 0xe7fe case 0xe => 0xd79d case _ => 0xc7bc)
    case 0x4 => (
      match ix & 0x0F
      case 0x0 => 0x48c4 case 0x1 => 0x58e5 case 0x2 => 0x6886 case 0x3 => 0x78a7 case 0x4 => 0x0840 case 0x5 => 0x1861 case 0x6 => 0x2802 case 0x7 => 0x3823
      case 0x8 => 0xc9cc case 0x9 => 0xd9ed case 0xa => 0xe98e case 0xb => 0xf9af case 0xc => 0x8948 case 0xd => 0x9969 case 0xe => 0xa90a case _ => 0xb92b)
    case 0x5 => (
      match ix & 0x0F
      case 0x0 => 0x5af5 case 0x1 => 0x4ad4 case 0x2 => 0x7ab7 case 0x3 => 0x6a96 case 0x4 => 0x1a71 case 0x5 => 0x0a50 case 0x6 => 0x3a33 case 0x7 => 0x2a12
      case 0x8 => 0xdbfd case 0x9 => 0xcbdc case 0xa => 0xfbbf case 0xb => 0xeb9e case 0xc => 0x9b79 case 0xd => 0x8b58 case 0xe => 0xbb3b case _ => 0xab1a)
    case 0x6 => (
      match ix & 0x0F
      case 0x0 => 0x6ca6 case 0x1 => 0x7c87 case 0x2 => 0x4ce4 case 0x3 => 0x5cc5 case 0x4 => 0x2c22 case 0x5 => 0x3c03 case 0x6 => 0x0c60 case 0x7 => 0x1c41
      case 0x8 => 0xedae case 0x9 => 0xfd8f case 0xa => 0xcdec case 0xb => 0xddcd case 0xc => 0xad2a case 0xd => 0xbd0b case 0xe => 0x8d68 case _ => 0x9d49)
    case 0x7 => (
      match ix & 0x0F
      case 0x0 => 0x7e97 case 0x1 => 0x6eb6 case 0x2 => 0x5ed5 case 0x3 => 0x4ef4 case 0x4 => 0x3e13 case 0x5 => 0x2e32 case 0x6 => 0x1e51 case 0x7 => 0x0e70
      case 0x8 => 0xff9f case 0x9 => 0xefbe case 0xa => 0xdfdd case 0xb => 0xcffc case 0xc => 0xbf1b case 0xd => 0xaf3a case 0xe => 0x9f59 case _ => 0x8f78)
    case 0x8 => (
      match ix & 0x0F
      case 0x0 => 0x9188 case 0x1 => 0x81a9 case 0x2 => 0xb1ca case 0x3 => 0xa1eb case 0x4 => 0xd10c case 0x5 => 0xc12d case 0x6 => 0xf14e case 0x7 => 0xe16f
      case 0x8 => 0x1080 case 0x9 => 0x00a1 case 0xa => 0x30c2 case 0xb => 0x20e3 case 0xc => 0x5004 case 0xd => 0x4025 case 0xe => 0x7046 case _ => 0x6067)
    case 0x9 => (
      match ix & 0x0F
      case 0x0 => 0x83b9 case 0x1 => 0x9398 case 0x2 => 0xa3fb case 0x3 => 0xb3da case 0x4 => 0xc33d case 0x5 => 0xd31c case 0x6 => 0xe37f case 0x7 => 0xf35e
      case 0x8 => 0x02b1 case 0x9 => 0x1290 case 0xa => 0x22f3 case 0xb => 0x32d2 case 0xc => 0x4235 case 0xd => 0x5214 case 0xe => 0x6277 case _ => 0x7256)
    case 0xa => (
      match ix & 0x0F
      case 0x0 => 0xb5ea case 0x1 => 0xa5cb case 0x2 => 0x95a8 case 0x3 => 0x8589 case 0x4 => 0xf56e case 0x5 => 0xe54f case 0x6 => 0xd52c case 0x7 => 0xc50d
      case 0x8 => 0x34e2 case 0x9 => 0x24c3 case 0xa => 0x14a0 case 0xb => 0x0481 case 0xc => 0x7466 case 0xd => 0x6447 case 0xe => 0x5424 case _ => 0x4405)
    case 0xb => (
      match ix & 0x0F
      case 0x0 => 0xa7db case 0x1 => 0xb7fa case 0x2 => 0x8799 case 0x3 => 0x97b8 case 0x4 => 0xe75f case 0x5 => 0xf77e case 0x6 => 0xc71d case 0x7 => 0xd73c
      case 0x8 => 0x26d3 case 0x9 => 0x36f2 case 0xa => 0x0691 case 0xb => 0x16b0 case 0xc => 0x6657 case 0xd => 0x7676 case 0xe => 0x4615 case _ => 0x5634)
    case 0xc => (
      match ix & 0x0F
      case 0x0 => 0xd94c case 0x1 => 0xc96d case 0x2 => 0xf90e case 0x3 => 0xe92f case 0x4 => 0x99c8 case 0x5 => 0x89e9 case 0x6 => 0xb98a case 0x7 => 0xa9ab
      case 0x8 => 0x5844 case 0x9 => 0x4865 case 0xa => 0x7806 case 0xb => 0x6827 case 0xc => 0x18c0 case 0xd => 0x08e1 case 0xe => 0x3882 case _ => 0x28a3)
    case 0xd => (
      match ix & 0x0F
      case 0x0 => 0xcb7d case 0x1 => 0xdb5c case 0x2 => 0xeb3f case 0x3 => 0xfb1e case 0x4 => 0x8bf9 case 0x5 => 0x9bd8 case 0x6 => 0xabbb case 0x7 => 0xbb9a
      case 0x8 => 0x4a75 case 0x9 => 0x5a54 case 0xa => 0x6a37 case 0xb => 0x7a16 case 0xc => 0x0af1 case 0xd => 0x1ad0 case 0xe => 0x2ab3 case _ => 0x3a92)
    case 0xe => (
      match ix & 0x0F
      case 0x0 => 0xfd2e case 0x1 => 0xed0f case 0x2 => 0xdd6c case 0x3 => 0xcd4d case 0x4 => 0xbdaa case 0x5 => 0xad8b case 0x6 => 0x9de8 case 0x7 => 0x8dc9
      case 0x8 => 0x7c26 case 0x9 => 0x6c07 case 0xa => 0x5c64 case 0xb => 0x4c45 case 0xc => 0x3ca2 case 0xd => 0x2c83 case 0xe => 0x1ce0 case _ => 0x0cc1)
    case _ => (
      match ix & 0x0F
      case 0x0 => 0xef1f case 0x1 => 0xff3e case 0x2 => 0xcf5d case 0x3 => 0xdf7c case 0x4 => 0xaf9b case 0x5 => 0xbfba case 0x6 => 0x8fd9 case 0x7 => 0x9ff8
      case 0x8 => 0x6e17 case 0x9 => 0x7e36 case 0xa => 0x4e55 case 0xb => 0x5e74 case 0xc => 0x2e93 case 0xd => 0x3eb2 case 0xe => 0x0ed1 case _ => 0x1ef0)
  }

  function TabIndex(crc: bv16, octet: bv8): bv8 { (((crc >> 8) ^ (octet as bv16)) & 0x00FF) as bv8 }

  /** The assignment in the loop of crc16_xmodem. */
  function UpdateByte(crc: bv16, octet: bv8): bv16 { (crc << 8) ^ Crc16Tab(TabIndex(crc, octet)) }

  function Crc(m: seq<bv8>): bv16 {
    if m == [] then 0 else UpdateByte(Crc(m[..|m| - 1]), m[|m| - 1])
  }

  method Crc16Xmodem(buf: array<bv8>, len: nat) returns (crc: bv16)
    requires len <= buf.Length
    ensures IsRemainder(Message(buf[..len]), crc)
  {
    crc := 0;
    for counter := 0 to len
      invariant crc == Crc(buf[..counter])
    {
      assert buf[..counter + 1][..counter] == buf[..counter];
      crc := UpdateByte(crc, buf[counter]);
    }
    CrcIsRemainder(buf[..len], crc);
  }

  // ---------------------------------------------------------------- polynomials over GF(2)

  /** A polynomial is the set of the exponents of its terms. */
  type Poly = set<nat>

  /** x^16 + x^12 + x^5 + 1, section 2 of ITU-T V.41. */
  const GENERATOR: Poly := {16, 12, 5, 0}

  function Plus(p: Poly, q: Poly): (r: Poly)
    ensures forall i :: i in r <==> (i in p) != (i in q)
  {
    (p - q) + (q - p)
  }

  lemma Moved(p: Poly, k: nat)
    ensures var r := set i | i in p :: i + k;
            forall i :: i in r <==> i >= k && i - k in p
  {
    var r := set i | i in p :: i + k;
    forall i: nat ensures i in r <==> i >= k && i - k in p {
      if i >= k && i - k in p {
        var j := i - k;
        assert j + k in r;
      }
    }
  }

  function BitTerm(bit: bool, i: nat): Poly { if bit then {i} else {} }

  /** p times x^k. */
  function Shift(p: Poly, k: nat): (r: Poly)
    ensures forall i :: i in r <==> i >= k && i - k in p
  {
    Moved(p, k);
    set i | i in p :: i + k
  }

  /** The generator times the terms of q below n. */
  ghost function Multiple(q: Poly, n: nat): Poly {
    if n == 0 then {}
    else if n - 1 in q then Plus(Multiple(q, n - 1), Shift(GENERATOR, n - 1))
    else Multiple(q, n - 1)
  }

  ghost predicate Divisible(p: Poly) {
    exists q: Poly, n: nat :: Multiple(q, n) == p
  }

  lemma {:induction false} MultipleNone(q: Poly, n: nat)
    requires forall i :: i in q ==> i >= n
    ensures Multiple(q, n) == {}
  {
    if n != 0 { MultipleNone(q, n - 1); }
  }

  function Below(q: Poly, n: nat): Poly { set i | i in q && i < n }

  lemma {:induction false} MultipleBelow(q: Poly, n: nat, k: nat)
    requires k <= n
    ensures Multiple(Below(q, n), k) == Multiple(q, k)
  {
    if k != 0 { MultipleBelow(q, n, k - 1); }
  }

  lemma {:induction false} MultipleBeyond(q: Poly, n: nat, m: nat)
    requires n <= m
    ensures Multiple(Below(q, n), m) == Multiple(q, n)
  {
    if n < m { MultipleBeyond(q, n, m - 1); } else { MultipleBelow(q, n, n); }
  }

  lemma {:induction false} MultiplePlus(p: Poly, q: Poly, n: nat)
    ensures Multiple(Plus(p, q), n) == Plus(Multiple(p, n), Multiple(q, n))
  {
    if n != 0 { MultiplePlus(p, q, n - 1); }
  }

  lemma {:induction false} MultipleShift(q: Poly, n: nat, k: nat)
    ensures Multiple(Shift(q, k), n + k) == Shift(Multiple(q, n), k)
  {
    if n != 0 {
      MultipleShift(q, n - 1, k);
      assert Shift(Shift(GENERATOR, n - 1), k) == Shift(GENERATOR, n + k - 1);
      assert n + k - 1 in Shift(q, k) <==> n - 1 in q;
      ShiftPlus(Multiple(q, n - 1), Shift(GENERATOR, n - 1), k);
    } else {
      MultipleNone(Shift(q, k), k);
    }
  }

  lemma ShiftPlus(p: Poly, q: Poly, k: nat)
    ensures Shift(Plus(p, q), k) == Plus(Shift(p, k), Shift(q, k))
  {
  }

  /** Multiples of the generator form an ideal: closed under sums and shifts. */
  lemma DivisiblePlus(p: Poly, q: Poly)
    requires Divisible(p) && Divisible(q)
    ensures Divisible(Plus(p, q))
  {
    var a: Poly, n: nat :| Multiple(a, n) == p;
    var b: Poly, m: nat :| Multiple(b, m) == q;
    MultipleBeyond(a, n, n + m);
    MultipleBeyond(b, m, n + m);
    MultiplePlus(Below(a, n), Below(b, m), n + m);
  }

  lemma DivisibleShift(p: Poly, k: nat)
    requires Divisible(p)
    ensures Divisible(Shift(p, k))
  {
    var a: Poly, n: nat :| Multiple(a, n) == p;
    MultipleShift(a, n, k);
  }

  lemma GeneratorDivides()
    ensures Divisible(GENERATOR) && Divisible({})
  {
    assert Multiple({0}, 0) == {};
    assert Shift(GENERATOR, 0) == GENERATOR;
    assert Multiple({0}, 1) == GENERATOR;
  }

  // ---------------------------------------------------------------- machine words as polynomials

  function Mask(i: nat): bv16 {
    match i
    case 0 => 0x0001 case 1 => 0x0002 case 2 => 0x0004 case 3 => 0x0008
    case 4 => 0x0010 case 5 => 0x0020 case 6 => 0x0040 case 7 => 0x0080
    case 8 => 0x0100 case 9 => 0x0200 case 10 => 0x0400 case 11 => 0x0800
    case 12 => 0x1000 case 13 => 0x2000 case 14 => 0x4000 case 15 => 0x8000
    case _ => 0
  }

  function Masks16(): seq<bv16> { seq(16, i requires 0 <= i < 16 => Mask(i)) }

  predicate Has(w: bv16, mask: bv16) { w & mask != 0 }

  function TermsBy(w: bv16, masks: seq<bv16>): (p: Poly)
    ensures forall i: nat :: i in p <==> i < |masks| && Has(w, masks[i])
  {
    set i: nat | i < |masks| && Has(w, masks[i])
  }

  function Terms(w: bv16): Poly { TermsBy(w, Masks16()) }

  function Octet(b: bv8): Poly { Terms(b as bv16) }

  /** A message, first octet first, most significant bit first. */
  function Message(m: seq<bv8>): Poly {
    if m == [] then {} else Plus(Shift(Message(m[..|m| - 1]), 8), Octet(m[|m| - 1]))
  }

  /** c is p times x^16 modulo the generator; being a 16-bit word, its degree is below 16. */
  ghost predicate IsRemainder(p: Poly, c: bv16) {
    Divisible(Plus(Shift(p, 16), Terms(c)))
  }

  ghost predicate Masks(ms: seq<bv16>) {
    && |ms| == 16 && ms[0] == 1 && ms[15] == 0x8000
    && (forall i :: 0 <= i < 16 ==> OneBit(ms[i]))
    && (forall i :: 0 <= i < 15 ==> ShiftsOne(ms[i], ms[i + 1]))
    && (forall i :: 0 <= i < 8 ==> ShiftsEight(ms[i], ms[i + 8]))
  }

  predicate OneBit(m: bv16) { m & (m - 1) == 0 }

  predicate ShiftsOne(m: bv16, n: bv16) { n == m << 1 && m != 0x8000 }

  predicate ShiftsEight(m: bv16, n: bv16) { n == m << 8 && m < 0x100 }

  lemma MasksAreMasks()
    ensures Masks(Masks16())
  {
    forall i | 0 <= i < 16 ensures OneBit(Mask(i)) {}
    forall i | 0 <= i < 15 ensures ShiftsOne(Mask(i), Mask(i + 1)) {}
    forall i | 0 <= i < 8 ensures ShiftsEight(Mask(i), Mask(i + 8)) {}
  }

  lemma XorMask(c: bv16, d: bv16, m: bv16)
    requires OneBit(m)
    ensures Has(c ^ d, m) == (Has(c, m) != Has(d, m))
  {
  }

  lemma ShiftMask(c: bv16, m: bv16, n: bv16)
    requires OneBit(m) && ShiftsOne(m, n)
    ensures Has(c << 1, n) == Has(c, m)
  {
  }

  /** d and e are the low octet of c moved up and its high octet moved down, as seen
      through the masks m and n of one bit in either octet. */
  predicate SameOctets(c: bv16, d: bv16, e: bv16, m: bv16, n: bv16) {
    Has(d, n) == Has(c, m) && Has(e, m) == Has(c, n) && !Has(d, m) && !Has(e, n)
  }

  lemma OctetMask(c: bv16, m: bv16, n: bv16)
    requires ShiftsEight(m, n)
    ensures SameOctets(c, c << 8, c >> 8, m, n)
  {
  }

  lemma LowBit(c: bv16)
    ensures !Has(c << 1, 1)
  {
  }

  lemma TermsXorBy(c: bv16, d: bv16, e: bv16, ms: seq<bv16>)
    requires Masks(ms) && e == c ^ d
    ensures TermsBy(e, ms) == Plus(TermsBy(c, ms), TermsBy(d, ms))
  {
    forall i | 0 <= i < 16 ensures Has(e, ms[i]) == (Has(c, ms[i]) != Has(d, ms[i])) {
      XorMask(c, d, ms[i]);
    }
  }

  lemma TermsShiftOneBy(c: bv16, d: bv16, ms: seq<bv16>)
    requires Masks(ms) && d == c << 1
    ensures Shift(TermsBy(c, ms), 1) == Plus(TermsBy(d, ms), BitTerm(Has(c, 0x8000), 16))
  {
    forall i | 0 <= i < 15 ensures Has(d, ms[i + 1]) == Has(c, ms[i]) {
      ShiftMask(c, ms[i], ms[i + 1]);
    }
    LowBit(c);
    var p, q := Shift(TermsBy(c, ms), 1), TermsBy(d, ms);
    forall i: nat | i != 16 ensures i in p <==> i in q {
      if 1 <= i < 16 { assert Has(d, ms[i - 1 + 1]) == Has(c, ms[i - 1]); }
    }
  }

  lemma TermsShiftEightBy(c: bv16, d: bv16, e: bv16, ms: seq<bv16>)
    requires Masks(ms) && d == c << 8 && e == c >> 8
    ensures Shift(TermsBy(c, ms), 8) == Plus(Shift(TermsBy(e, ms), 16), TermsBy(d, ms))
  {
    forall i | 0 <= i < 8 ensures SameOctets(c, d, e, ms[i], ms[i + 8]) {
      OctetMask(c, ms[i], ms[i + 8]);
    }
    var p, q, r := Shift(TermsBy(c, ms), 8), Shift(TermsBy(e, ms), 16), TermsBy(d, ms);
    forall i: nat ensures i in p <==> (i in q) != (i in r) {
      if i < 8 { assert SameOctets(c, d, e, ms[i], ms[i + 8]); }
      if 8 <= i < 16 { assert SameOctets(c, d, e, ms[i - 8], ms[i - 8 + 8]); }
      if 16 <= i < 24 { assert SameOctets(c, d, e, ms[i - 16], ms[i - 16 + 8]); }
      if 24 <= i < 32 { assert SameOctets(c, d, e, ms[i - 24], ms[i - 24 + 8]); }
    }
  }

  lemma TermsXor(c: bv16, d: bv16, e: bv16)
    requires e == c ^ d
    ensures Terms(e) == Plus(Terms(c), Terms(d))
  {
    MasksAreMasks();
    TermsXorBy(c, d, e, Masks16());
  }

  lemma TermsShiftOne(c: bv16, d: bv16)
    requires d == c << 1
    ensures Shift(Terms(c), 1) == Plus(Terms(d), BitTerm(Has(c, 0x8000), 16))
  {
    MasksAreMasks();
    TermsShiftOneBy(c, d, Masks16());
  }

  lemma TermsShiftEight(c: bv16, d: bv16, e: bv16)
    requires d == c << 8 && e == c >> 8
    ensures Shift(Terms(c), 8) == Plus(Shift(Terms(e), 16), Terms(d))
  {
    MasksAreMasks();
    TermsShiftEightBy(c, d, e, Masks16());
  }

  lemma NoTerms(e: bv16)
    requires Terms(e) == {}
    ensures e == 0
  {
    forall i: nat | i < 16 ensures !Has(e, Mask(i)) {
      assert i !in Terms(e) && Masks16()[i] == Mask(i);
    }
    NoBits(e);
  }

  lemma NoBits(e: bv16)
    requires forall i: nat :: i < 16 ==> !Has(e, Mask(i))
    ensures e == 0
  {
    assert !Has(e, Mask(0)) && !Has(e, Mask(1)) && !Has(e, Mask(2)) && !Has(e, Mask(3));
    assert !Has(e, Mask(4)) && !Has(e, Mask(5)) && !Has(e, Mask(6)) && !Has(e, Mask(7));
    assert !Has(e, Mask(8)) && !Has(e, Mask(9)) && !Has(e, Mask(10)) && !Has(e, Mask(11));
    assert !Has(e, Mask(12)) && !Has(e, Mask(13)) && !Has(e, Mask(14)) && !Has(e, Mask(15));
  }

  /** A word is determined by its terms. */
  lemma TermsInjective(c: bv16, d: bv16)
    requires Terms(c) == Terms(d)
    ensures c == d
  {
    TermsXor(c, d, c ^ d);
    NoTerms(c ^ d);
    XorZero(c, d);
  }

  lemma XorZero(c: bv16, d: bv16)
    requires c ^ d == 0
    ensures c == d
  {
  }

  // ---------------------------------------------------------------- the table

  /** One step of long division on the packed register: bring down a bit, subtract the
      generator when the leading terms differ. */
  function Step(c: bv16, bit: bool): bv16 {
    if (c & 0x8000 != 0) != bit then (c << 1) ^ 0x1021 else c << 1
  }

  function Closed(ix: bv16): bv16 { var t := ix ^ (ix >> 4); (t << 12) ^ (t << 5) ^ t }

  /** All 256 entries against one expression. */
  lemma TableClosed(ix: bv8)
    ensures Crc16Tab(ix) == Closed(ix as bv16)
  {
  }

  lemma ClosedStep(ix: bv16)
    requires ix < 0x100
    ensures Closed(ix) == Step(Closed(ix >> 1), ix & 1 != 0)
  {
  }

  lemma LowTerms()
    ensures Terms(0) == {} && Terms(1) == {0} && Terms(0x1021) == {12, 5, 0}
  {
    MasksAreMasks();
    assert forall i: nat :: i < 16 ==> Masks16()[i] == Mask(i);
    assert forall i: nat :: i < 16 ==> (Has(1, Mask(i)) <==> i == 0);
    assert forall i: nat :: i < 16 ==> (Has(0x1021, Mask(i)) <==> i == 12 || i == 5 || i == 0);
  }

  /** What a step does to the polynomial in the register. */
  lemma StepTerms(c: bv16, bit: bool, s: bv16)
    requires s == Step(c, bit)
    ensures Terms(s) == Plus(Plus(Shift(Terms(c), 1), BitTerm(bit, 16)), Reduction(Has(c, 0x8000) != bit))
  {
    LowTerms();
    var d := c << 1;
    TermsShiftOne(c, d);
    if Has(c, 0x8000) != bit {
      TermsXor(d, 0x1021, s);
      SubtractGenerator(Shift(Terms(c), 1), Terms(d), Has(c, 0x8000), bit);
    }
  }

  function Reduction(digit: bool): Poly { if digit then GENERATOR else {} }

  lemma SubtractGenerator(p: Poly, q: Poly, top: bool, bit: bool)
    requires p == Plus(q, BitTerm(top, 16)) && top != bit
    ensures Plus(q, {12, 5, 0}) == Plus(Plus(p, BitTerm(bit, 16)), GENERATOR)
  {
  }

  lemma Halves(ix: bv16, half: bv16, low: bv16)
    requires half == ix >> 1 && low == ix & 1
    ensures ix == (half << 1) ^ low && (low == 0 || low == 1)
    ensures !Has(half, 0x8000)
    ensures ix != 0 ==> half < ix
  {
  }

  lemma JoinTerms(ix: bv16, half: bv16, double: bv16, low: bv16)
    requires double == half << 1 && ix == double ^ low && (low == 0 || low == 1) && !Has(half, 0x8000)
    ensures Terms(ix) == Plus(Shift(Terms(half), 1), BitTerm(low != 0, 0))
  {
    LowTerms();
    TermsShiftOne(half, double);
    TermsXor(double, low, ix);
  }

  lemma HalfTerms(ix: bv16, half: bv16, low: bv16)
    requires half == ix >> 1 && low == ix & 1
    ensures Terms(ix) == Plus(Shift(Terms(half), 1), BitTerm(low != 0, 0))
  {
    Halves(ix, half, low);
    JoinTerms(ix, half, half << 1, low);
  }

  /** Every table entry is the remainder of its index. */
  lemma {:induction false} TableEntry(ix: bv16)
    requires ix < 0x100
    ensures IsRemainder(Terms(ix), Closed(ix))
    decreases ix
  {
    GeneratorDivides();
    if ix == 0 {
      LowTerms();
      assert Plus(Shift({}, 16), {}) == {};
    } else {
      var y, low, c, next := ix >> 1, ix & 1, Closed(ix >> 1), Closed(ix);
      Halves(ix, y, low);
      TableEntry(y);
      ClosedStep(ix);
      StepTerms(c, low != 0, next);
      HalfTerms(ix, y, low);
      NextEntry(Terms(y), Terms(c), Terms(ix), Terms(next), Has(c, 0x8000), low != 0);
    }
  }

  lemma NextEntry(y: Poly, c: Poly, ix: Poly, next: Poly, top: bool, bit: bool)
    requires Divisible(Plus(Shift(y, 16), c))
    requires ix == Plus(Shift(y, 1), BitTerm(bit, 0))
    requires next == Plus(Plus(Shift(c, 1), BitTerm(bit, 16)), Reduction(top != bit))
    ensures Divisible(Plus(Shift(ix, 16), next))
  {
    GeneratorDivides();
    var d := Plus(Shift(y, 16), c);
    DivisibleShift(d, 1);
    DivisiblePlus(Shift(d, 1), Reduction(top != bit));
    EntryIdentity(y, c, bit, Reduction(top != bit));
  }

  /** Shifting dividend and register together, and bringing the next bit down twice, cancels it. */
  lemma EntryIdentity(y: Poly, c: Poly, bit: bool, r: Poly)
    ensures Plus(Shift(Plus(Shift(y, 1), BitTerm(bit, 0)), 16), Plus(Plus(Shift(c, 1), BitTerm(bit, 16)), r))
            == Plus(Shift(Plus(Shift(y, 16), c), 1), r)
  {
    ShiftPlus(Shift(y, 1), BitTerm(bit, 0), 16);
    ShiftPlus(Shift(y, 16), c, 1);
    assert Shift(Shift(y, 1), 16) == Shift(Shift(y, 16), 1);
    assert Shift(BitTerm(bit, 0), 16) == BitTerm(bit, 16);
    CancelMiddle(Shift(Shift(y, 16), 1), BitTerm(bit, 16), Shift(c, 1), r);
  }

  lemma CancelMiddle(a: Poly, b: Poly, c: Poly, r: Poly)
    ensures Plus(Plus(a, b), Plus(Plus(c, b), r)) == Plus(Plus(a, c), r)
  {
  }

  // ---------------------------------------------------------------- the theorems

  lemma IndexOctet(c: bv16, b: bv8)
    ensures TabIndex(c, b) as bv16 == (c >> 8) ^ (b as bv16) && TabIndex(c, b) as bv16 < 0x100
  {
  }

  lemma TableRemainder(ix: bv8, c: bv16)
    requires c == Crc16Tab(ix)
    ensures IsRemainder(Terms(ix as bv16), c)
  {
    TableClosed(ix);
    TableEntry(ix as bv16);
  }

  /** The loop keeps the register at the remainder of the octets read so far. */
  lemma UpdateByteDivides(p: Poly, c: bv16, b: bv8)
    requires IsRemainder(p, c)
    ensures IsRemainder(Plus(Shift(p, 8), Octet(b)), UpdateByte(c, b))
  {
    IndexOctet(c, b);
    TableRemainder(TabIndex(c, b), Crc16Tab(TabIndex(c, b)));
    UpdateWord(p, c, c >> 8, c << 8, b as bv16, TabIndex(c, b) as bv16, Crc16Tab(TabIndex(c, b)), UpdateByte(c, b));
  }

  lemma UpdateWord(p: Poly, c: bv16, hi: bv16, lo: bv16, b: bv16, ix: bv16, t: bv16, u: bv16)
    requires IsRemainder(p, c) && IsRemainder(Terms(ix), t)
    requires hi == c >> 8 && lo == c << 8 && ix == hi ^ b && u == lo ^ t
    ensures IsRemainder(Plus(Shift(p, 8), Terms(b)), u)
  {
    TermsXor(hi, b, ix);
    TermsXor(lo, t, u);
    TermsShiftEight(c, lo, hi);
    NextOctet(p, Terms(c), Terms(hi), Terms(lo), Terms(b), Terms(ix), Terms(t), Terms(u));
  }

  lemma NextOctet(p: Poly, c: Poly, hi: Poly, lo: Poly, b: Poly, ix: Poly, t: Poly, u: Poly)
    requires Divisible(Plus(Shift(p, 16), c)) && Divisible(Plus(Shift(ix, 16), t))
    requires Shift(c, 8) == Plus(Shift(hi, 16), lo)
    requires ix == Plus(hi, b) && u == Plus(lo, t)
    ensures Divisible(Plus(Shift(Plus(Shift(p, 8), b), 16), u))
  {
    var d, e := Plus(Shift(p, 16), c), Plus(Shift(ix, 16), t);
    DivisibleShift(d, 8);
    DivisiblePlus(Shift(d, 8), e);
    ShiftPlus(Shift(p, 16), c, 8);
    ShiftPlus(hi, b, 16);
    ShiftPlus(Shift(p, 8), b, 16);
    assert Shift(Shift(p, 8), 16) == Shift(Shift(p, 16), 8);
    assert Plus(Shift(Plus(Shift(p, 8), b), 16), u) == Plus(Shift(d, 8), e);
  }

  lemma {:induction false} CrcDivides(m: seq<bv8>)
    ensures IsRemainder(Message(m), Crc(m))
  {
    if m == [] {
      LowTerms();
      GeneratorDivides();
      assert Plus(Shift({}, 16), {}) == {};
    } else {
      CrcDivides(m[..|m| - 1]);
      UpdateByteDivides(Message(m[..|m| - 1]), Crc(m[..|m| - 1]), m[|m| - 1]);
    }
  }

  /** The highest and the lowest term of a multiple lie at least 16 apart. */
  lemma {:induction false} MultipleTop(q: Poly, n: nat, j: nat)
    requires j in q && j < n && forall i :: i in q && i < n ==> i <= j
    ensures j + 16 in Multiple(q, n) && forall i :: i in Multiple(q, n) ==> i <= j + 16
  {
    if j < n - 1 {
      MultipleTop(q, n - 1, j);
    } else {
      MultipleSpan(q, n - 1);
    }
  }

  lemma {:induction false} MultipleSpan(q: Poly, n: nat)
    ensures forall i :: i in Multiple(q, n) ==> i < n + 16
  {
    if n != 0 { MultipleSpan(q, n - 1); }
  }

  lemma {:induction false} MultipleBottom(q: Poly, n: nat, j: nat)
    requires j in q && j < n && forall i :: i in q ==> i >= j
    ensures j in Multiple(q, n)
  {
    if j < n - 1 {
      MultipleBottom(q, n - 1, j);
    } else {
      MultipleNone(q, j);
    }
  }

  lemma SpanOfDivisible(p: Poly) returns (lo: nat, hi: nat)
    requires Divisible(p) && p != {}
    ensures lo in p && hi in p && lo + 16 <= hi
  {
    var q: Poly, n: nat :| Multiple(q, n) == p;
    MultipleBeyond(q, n, n);
    var r := Below(q, n);
    if r == {} {
      MultipleNone(r, n);
    }
    lo := Least(r);
    var top := Greatest(r);
    hi := top + 16;
    MultipleBottom(r, n, lo);
    MultipleTop(r, n, top);
  }

  lemma {:induction false} Least(p: Poly) returns (j: nat)
    requires p != {}
    ensures j in p && forall i :: i in p ==> i >= j
    decreases |p|
  {
    var some :| some in p;
    j := some;
    if p != {some} {
      assert p == (p - {some}) + {some};
      var k := Least(p - {some});
      if k < some { j := k; }
    }
  }

  lemma {:induction false} Greatest(p: Poly) returns (j: nat)
    requires p != {}
    ensures j in p && forall i :: i in p ==> i <= j
    decreases |p|
  {
    var some :| some in p;
    j := some;
    if p != {some} {
      assert p == (p - {some}) + {some};
      var k := Greatest(p - {some});
      if k > some { j := k; }
    }
  }

  /** The CRC of a message is its remainder, and no other word is. */
  lemma CrcIsRemainder(m: seq<bv8>, c: bv16)
    ensures IsRemainder(Message(m), c) <==> c == Crc(m)
  {
    CrcDivides(m);
    if IsRemainder(Message(m), c) {
      var d := Crc(m);
      var p := Shift(Message(m), 16);
      DivisiblePlus(Plus(p, Terms(c)), Plus(p, Terms(d)));
      var e := Plus(Terms(c), Terms(d));
      assert Plus(Plus(p, Terms(c)), Plus(p, Terms(d))) == e;
      if e != {} {
        var lo, hi := SpanOfDivisible(e);
        assert false;
      }
      assert Terms(c) == Terms(d);
      TermsInjective(c, d);
    }
  }

  // ---------------------------------------------------------------- error detection

  /** The bits in which two messages differ, numbered from the last bit of the message. */
  function Difference(m: seq<bv8>, n: seq<bv8>): Poly { Plus(Message(m), Message(n)) }

  /** x does not divide the generator, so shifting back keeps divisibility. */
  lemma DivisibleUnshift(p: Poly, k: nat)
    ensures Divisible(Shift(p, k)) <==> Divisible(p)
  {
    if Divisible(p) {
      DivisibleShift(p, k);
    }
    if Divisible(Shift(p, k)) {
      var q: Poly, n: nat :| Multiple(q, n) == Shift(p, k);
      MultipleBeyond(q, n, n);
      var r := Below(q, n);
      QuotientStart(r, n, p, k);
      Unshifted(r, k, n);
      MultipleBeyond(q, n, n + k);
      MultipleShift(Unshift(r, k, n), n, k);
      ShiftInjective(Multiple(Unshift(r, k, n), n), p, k);
    }
  }

  lemma QuotientStart(r: Poly, n: nat, p: Poly, k: nat)
    requires Multiple(r, n) == Shift(p, k) && forall i :: i in r ==> i < n
    ensures forall i :: i in r ==> k <= i
  {
    if r != {} {
      var least := Least(r);
      MultipleBottom(r, n, least);
    }
  }

  lemma ShiftInjective(p: Poly, q: Poly, k: nat)
    requires Shift(p, k) == Shift(q, k)
    ensures p == q
  {
    forall i: nat ensures i in p <==> i in q {
      assert i in p <==> i + k in Shift(p, k);
      assert i in q <==> i + k in Shift(q, k);
    }
  }

  predicate InShifted(p: Poly, k: nat, i: nat) { i + k in p }

  function Unshift(p: Poly, k: nat, n: nat): Poly { set i: nat | i < n && InShifted(p, k, i) }

  lemma Unshifted(p: Poly, k: nat, n: nat)
    requires forall i :: i in p ==> k <= i < n
    ensures Shift(Unshift(p, k, n), k) == p
  {
    var q := Unshift(p, k, n);
    forall i: nat ensures i in Shift(q, k) <==> i in p {
      if i >= k {
        assert i - k in q <==> i - k < n && InShifted(p, k, i - k);
      }
    }
  }

  /** Two messages collide exactly when their difference is a multiple of the generator. */
  lemma CollisionIffDivisible(m: seq<bv8>, n: seq<bv8>)
    ensures Crc(m) == Crc(n) <==> Divisible(Difference(m, n))
  {
    var p, q, d := Shift(Message(m), 16), Shift(Message(n), 16), Shift(Difference(m, n), 16);
    CrcDivides(m);
    CrcDivides(n);
    ShiftPlus(Message(m), Message(n), 16);
    DivisibleUnshift(Difference(m, n), 16);
    var c := Terms(Crc(m));
    if Crc(m) == Crc(n) {
      DivisiblePlus(Plus(p, c), Plus(q, c));
      assert Plus(Plus(p, c), Plus(q, c)) == d;
    } else if Divisible(d) {
      DivisiblePlus(Plus(p, c), d);
      assert Plus(Plus(p, c), d) == Plus(q, c);
      CrcIsRemainder(n, Crc(m));
    }
  }

  lemma OctetTerms(w: bv16)
    requires w < 0x100
    ensures forall i :: i in Terms(w) ==> i < 8
  {
    MasksAreMasks();
    var ms := Masks16();
    forall i | 8 <= i < 16 ensures !Has(w, ms[i]) {
      assert ShiftsEight(ms[i - 8], ms[i - 8 + 8]);
      HighMask(w, ms[i - 8], ms[i]);
    }
  }

  lemma HighMask(w: bv16, m: bv16, n: bv16)
    requires ShiftsEight(m, n) && w < 0x100
    ensures !Has(w, n)
  {
  }

  lemma OctetInjective(b: bv8, c: bv8)
    ensures forall i :: i in Octet(b) ==> i < 8
    ensures Octet(b) == Octet(c) ==> b == c
  {
    OctetTerms(b as bv16);
    if Octet(b) == Octet(c) {
      TermsInjective(b as bv16, c as bv16);
    }
  }

  lemma MessageSnoc(m: seq<bv8>, b: bv8)
    ensures Message(m + [b]) == Plus(Shift(Message(m), 8), Octet(b))
  {
    assert (m + [b])[..|m|] == m;
  }

  lemma {:induction false} MessageInjective(m: seq<bv8>, n: seq<bv8>)
    requires |m| == |n| && Message(m) == Message(n)
    ensures m == n
  {
    if m != [] {
      var k := |m| - 1;
      var b, c := m[k], n[k];
      assert m == m[..k] + [b] && n == n[..k] + [c];
      MessageSnoc(m[..k], b);
      MessageSnoc(n[..k], c);
      OctetInjective(b, c);
      OctetInjective(c, b);
      SplitOctet(Message(m[..k]), Octet(b), Message(n[..k]), Octet(c));
      MessageInjective(m[..k], n[..k]);
    }
  }

  lemma SplitOctet(p: Poly, b: Poly, q: Poly, c: Poly)
    requires Plus(Shift(p, 8), b) == Plus(Shift(q, 8), c)
    requires (forall i :: i in b ==> i < 8) && (forall i :: i in c ==> i < 8)
    ensures p == q && b == c
  {
    var r := Plus(Shift(p, 8), b);
    forall i: nat ensures i in b <==> i in c {
      assert i < 8 ==> (i in r <==> i in b);
    }
    forall i: nat ensures i in p <==> i in q {
      assert i + 8 in r <==> i in p;
    }
  }

  /** Every burst error of at most 16 bits changes the CRC, whatever the message length. */
  lemma BurstDetected(m: seq<bv8>, n: seq<bv8>, start: nat)
    requires |m| == |n| && m != n
    requires forall i :: i in Difference(m, n) ==> start <= i < start + 16
    ensures Crc(m) != Crc(n)
  {
    if Crc(m) == Crc(n) {
      CollisionIffDivisible(m, n);
      var d := Difference(m, n);
      if d == {} {
        forall i: nat ensures i in Message(m) <==> i in Message(n) {
          assert i !in d;
        }
        MessageInjective(m, n);
      } else {
        var lo, hi := SpanOfDivisible(d);
      }
    }
  }

  /** The bound is sharp: a burst of 17 bits, the generator itself, goes unnoticed. */
  lemma BurstOf17Missed()
    ensures Crc([0x01, 0x10, 0x21]) == 0 == Crc([0x00, 0x00, 0x00])
  {
    UpdatesOf17();
    assert [0x01, 0x10, 0x21] == [] + [0x01] + [0x10] + [0x21] && [0x00, 0x00, 0x00] == [] + [0x00] + [0x00] + [0x00];
    CrcSnoc([], 0x01, 0x0000);
    CrcSnoc([] + [0x01], 0x10, 0x1021);
    CrcSnoc([] + [0x01] + [0x10], 0x21, 0x2100);
    CrcSnoc([], 0x00, 0x0000);
    CrcSnoc([] + [0x00], 0x00, 0x0000);
    CrcSnoc([] + [0x00] + [0x00], 0x00, 0x0000);
  }

  lemma UpdatesOf17()
    ensures UpdateByte(0x0000, 0x01) == 0x1021
    ensures UpdateByte(0x1021, 0x10) == 0x2100
    ensures UpdateByte(0x2100, 0x21) == 0x0000
    ensures UpdateByte(0x0000, 0x00) == 0x0000
  {
  }

  lemma CrcSnoc(m: seq<bv8>, b: bv8, c: bv16)
    requires c == Crc(m)
    ensures Crc(m + [b]) == UpdateByte(c, b)
  {
    assert (m + [b])[..|m|] == m;
  }

  lemma PlusParity(p: Poly, q: Poly)
    ensures |Plus(p, q)| % 2 == (|p| + |q|) % 2
  {
    assert p == (p - q) + (p * q) && q == (q - p) + (p * q);
  }

  lemma {:induction false} ShiftSize(p: Poly, k: nat)
    ensures |Shift(p, k)| == |p|
    decreases |p|
  {
    if p == {} {
      assert Shift(p, k) == {};
    } else {
      var i :| i in p;
      ShiftSize(p - {i}, k);
      assert Shift(p, k) == Shift(p - {i}, k) + {i + k};
    }
  }

  lemma EvenPlus(p: Poly, g: Poly)
    requires |p| % 2 == 0 && |g| == 4
    ensures |Plus(p, g)| % 2 == 0
  {
    PlusParity(p, g);
  }

  lemma GeneratorEven(n: nat)
    ensures |Shift(GENERATOR, n)| == 4
  {
    ShiftSize(GENERATOR, n);
  }

  lemma {:induction false} MultipleEven(q: Poly, n: nat)
    ensures |Multiple(q, n)| % 2 == 0
  {
    if n != 0 {
      MultipleEven(q, n - 1);
      if n - 1 in q {
        GeneratorEven(n - 1);
        EvenPlus(Multiple(q, n - 1), Shift(GENERATOR, n - 1));
      }
    }
  }

  /** Every error in an odd number of bits changes the CRC. */
  lemma OddErrorDetected(m: seq<bv8>, n: seq<bv8>)
    requires |Difference(m, n)| % 2 == 1
    ensures Crc(m) != Crc(n)
  {
    if Crc(m) == Crc(n) {
      CollisionIffDivisible(m, n);
      var q: Poly, k: nat :| Multiple(q, k) == Difference(m, n);
      MultipleEven(q, k);
    }
  }

  /** A receiver that runs the CRC over the message and its two CRC octets, high octet first,
      gets zero exactly when those octets are the message's CRC. */
  lemma FrameCheck(m: seq<bv8>, hi: bv8, lo: bv8, c: bv16)
    requires c == ((hi as bv16) << 8) ^ (lo as bv16)
    ensures Crc(m + [hi, lo]) == 0 <==> Crc(m) == c
  {
    FrameMessage(m, hi, lo, c);
    CrcIsRemainder(m, c);
    FrameRemainder(m + [hi, lo]);
  }

  lemma FrameMessage(m: seq<bv8>, hi: bv8, lo: bv8, c: bv16)
    requires c == ((hi as bv16) << 8) ^ (lo as bv16)
    ensures Message(m + [hi, lo]) == Plus(Shift(Message(m), 16), Terms(c))
  {
    assert m + [hi, lo] == m + [hi] + [lo];
    MessageSnoc(m, hi);
    MessageSnoc(m + [hi], lo);
    FrameTerms(Message(m), hi as bv16, lo as bv16, c);
  }

  lemma FrameRemainder(f: seq<bv8>)
    ensures Crc(f) == 0 <==> Divisible(Message(f))
  {
    CrcIsRemainder(f, 0);
    DivisibleUnshift(Message(f), 16);
    LowTerms();
    assert Plus(Shift(Message(f), 16), {}) == Shift(Message(f), 16);
  }

  lemma FrameTerms(p: Poly, hi: bv16, lo: bv16, c: bv16)
    requires hi < 0x100 && c == (hi << 8) ^ lo
    ensures Plus(Shift(Plus(Shift(p, 8), Terms(hi)), 8), Terms(lo)) == Plus(Shift(p, 16), Terms(c))
  {
    HighOctet(hi, hi << 8);
    TermsXor(hi << 8, lo, c);
    JoinOctets(p, Terms(hi), Terms(hi << 8), Terms(lo), Terms(c));
  }

  lemma HighOctet(hi: bv16, high: bv16)
    requires hi < 0x100 && high == hi << 8
    ensures Shift(Terms(hi), 8) == Terms(high)
  {
    TermsShiftEight(hi, high, 0);
    LowTerms();
    assert Shift({}, 16) == {};
  }

  lemma JoinOctets(p: Poly, hi: Poly, high: Poly, lo: Poly, c: Poly)
    requires Shift(hi, 8) == high && c == Plus(high, lo)
    ensures Plus(Shift(Plus(Shift(p, 8), hi), 8), lo) == Plus(Shift(p, 16), c)
  {
    ShiftPlus(Shift(p, 8), hi, 8);
    assert Shift(Shift(p, 8), 8) == Shift(p, 16);
  }
}
