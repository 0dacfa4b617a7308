/** HARDWARE/CAN/crc16.h: which errors in two bits the CRC detects. The powers of x repeat modulo
    the generator with period 32767 and no shorter one. */
module TwoBitErrors {
  import opened Crc16
  import opened WordArithmetic

  /** The word c is x^n modulo the generator. */
  ghost predicate IsPower(n: nat, c: bv16) { Divisible(Plus({n}, Terms(c))) }

  /** x^k is 1 modulo the generator. */
  ghost predicate Returns(k: nat) { Divisible(Plus({k}, {0})) }

  // ---------------------------------------------------------------- one power more

  lemma PowerNext(n: nat, c: bv16, d: bv16)
    requires IsPower(n, c) && d == Step(c, false)
    ensures IsPower(n + 1, d)
  {
    var top := Has(c, 0x8000);
    StepTerms(c, false, d);
    GeneratorDivides();
    DivisibleShift(Plus({n}, Terms(c)), 1);
    DivisiblePlus(Shift(Plus({n}, Terms(c)), 1), Reduction(top));
    ShiftPlus({n}, Terms(c), 1);
    assert Shift({n}, 1) == {n + 1};
    Regroup({n + 1}, Shift(Terms(c), 1), Reduction(top));
  }

  lemma Regroup(a: Poly, b: Poly, r: Poly)
    ensures Plus(Plus(a, b), r) == Plus(a, Plus(Plus(b, {}), r))
  {
  }

  // ---------------------------------------------------------------- squares

  /** The square of p: over GF(2) the mixed terms cancel. */
  function Square(p: Poly): (r: Poly)
    ensures forall i :: i in r <==> i % 2 == 0 && i / 2 in p
  {
    Doubled(p);
    set i | i in p :: 2 * i
  }

  lemma Doubled(p: Poly)
    ensures var r := set i | i in p :: 2 * i;
            forall i :: i in r <==> i % 2 == 0 && i / 2 in p
  {
    var r := set i | i in p :: 2 * i;
    forall i: nat ensures i in r <==> i % 2 == 0 && i / 2 in p {
      if i % 2 == 0 && i / 2 in p {
        var j := i / 2;
        assert i == 2 * j && 2 * j in r;
      }
    }
  }

  lemma SquarePlus(p: Poly, q: Poly)
    ensures Square(Plus(p, q)) == Plus(Square(p), Square(q))
  {
  }

  lemma SquareShift(p: Poly, k: nat)
    ensures Square(Shift(p, k)) == Shift(Square(p), 2 * k)
  {
    forall i: nat ensures i in Square(Shift(p, k)) <==> i in Shift(Square(p), 2 * k) {
      if i >= 2 * k { assert (i - 2 * k) / 2 == i / 2 - k; }
    }
  }

  lemma SquareOfGenerator(low: Poly, high: Poly)
    requires low == Plus(GENERATOR, Shift(GENERATOR, 5)) && high == Plus(Shift(GENERATOR, 12), Shift(GENERATOR, 16))
    ensures Square(GENERATOR) == Plus(low, high)
  {
    assert forall i :: i in low <==> i in {21, 17, 16, 12, 10, 0};
    assert forall i :: i in high <==> i in {32, 24, 21, 17, 16, 12};
    assert forall i :: i in Square(GENERATOR) <==> i in {32, 24, 10, 0};
  }

  lemma GeneratorSquared()
    ensures Divisible(Square(GENERATOR))
  {
    var g := GENERATOR;
    GeneratorDivides();
    DivisibleShift(g, 5);
    DivisibleShift(g, 12);
    DivisibleShift(g, 16);
    DivisiblePlus(g, Shift(g, 5));
    DivisiblePlus(Shift(g, 12), Shift(g, 16));
    DivisiblePlus(Plus(g, Shift(g, 5)), Plus(Shift(g, 12), Shift(g, 16)));
    SquareOfGenerator(Plus(g, Shift(g, 5)), Plus(Shift(g, 12), Shift(g, 16)));
  }

  lemma {:induction false} MultipleSquared(q: Poly, n: nat)
    ensures Divisible(Square(Multiple(q, n)))
  {
    if n == 0 {
      GeneratorDivides();
      assert Square({}) == {};
    } else {
      MultipleSquared(q, n - 1);
      GeneratorSquared();
      DivisibleShift(Square(GENERATOR), 2 * (n - 1));
      SquareShift(GENERATOR, n - 1);
      SquarePlus(Multiple(q, n - 1), Shift(GENERATOR, n - 1));
      DivisiblePlus(Square(Multiple(q, n - 1)), Square(Shift(GENERATOR, n - 1)));
    }
  }

  lemma DivisibleSquare(p: Poly)
    requires Divisible(p)
    ensures Divisible(Square(p))
  {
    var q: Poly, n: nat :| Multiple(q, n) == p;
    MultipleSquared(q, n);
  }

  // ---------------------------------------------------------------- squares of words

  /** The bits of an octet with a zero bit above each. */
  function Spread(b: bv16): bv16 {
    var x := (b | (b << 4)) & 0x0F0F;
    var y := (x | (x << 2)) & 0x3333;
    (y | (y << 1)) & 0x5555
  }

  /** m is the mask of a bit of an octet, and n, o are those of the two bits that it spreads to. */
  predicate Spreads(m: bv16, n: bv16, o: bv16) {
    m < 0x100 && OneBit(m) && n == Spread(m) && o == n << 1
  }

  lemma SpreadMask(b: bv16, m: bv16, n: bv16, o: bv16)
    requires b < 0x100 && Spreads(m, n, o)
    ensures Has(Spread(b), n) == Has(b, m) && !Has(Spread(b), o)
  {
  }

  lemma SpreadMasks(i: nat)
    requires i < 8
    ensures Spreads(Mask(i), Mask(2 * i), Mask(2 * i + 1))
  {
  }

  lemma SpreadTerm(b: bv16, s: bv16, i: nat)
    requires b < 0x100 && s == Spread(b) && i < 16
    ensures Has(s, Mask(i)) <==> i % 2 == 0 && Has(b, Mask(i / 2))
  {
    SpreadMasks(i / 2);
    SpreadMask(b, Mask(i / 2), Mask(2 * (i / 2)), Mask(2 * (i / 2) + 1));
  }

  lemma TermIs(w: bv16, i: nat)
    ensures i in Terms(w) <==> i < 16 && Has(w, Mask(i))
  {
  }

  lemma SpreadTerms(b: bv16, s: bv16)
    requires b < 0x100 && s == Spread(b)
    ensures Terms(s) == Square(Terms(b))
  {
    OctetTerms(b);
    forall i: nat ensures i in Terms(s) <==> i in Square(Terms(b)) {
      TermIs(s, i);
      TermIs(b, i / 2);
      if i < 16 { SpreadTerm(b, s, i); }
    }
  }

  /** The remainder of w * x^16: two octets through the table. */
  function Reduced(w: bv16): bv16 {
    UpdateByte(UpdateByte(0, (w >> 8) as bv8), (w & 0xFF) as bv8)
  }

  /** A word is its two octets. */
  lemma OctetsOf(w: bv16, hi: bv16, lo: bv16)
    requires hi == w >> 8 && lo == w & 0xFF
    ensures hi < 0x100 && lo < 0x100 && w == (hi << 8) ^ lo
  {
  }

  lemma WordTerms(w: bv16, hi: bv16, lo: bv16)
    requires hi < 0x100 && w == (hi << 8) ^ lo
    ensures Terms(w) == Plus(Shift(Terms(hi), 8), Terms(lo))
  {
    HighOctet(hi, hi << 8);
    TermsXor(hi << 8, lo, w);
  }

  lemma TwoOctets(hi: bv8, lo: bv8, u: bv16, v: bv16)
    requires u == UpdateByte(0, hi) && v == UpdateByte(u, lo)
    ensures IsRemainder(Plus(Shift(Octet(hi), 8), Octet(lo)), v)
  {
    LowTerms();
    GeneratorDivides();
    assert Plus(Shift({}, 16), {}) == {};
    UpdateByteDivides({}, 0, hi);
    assert Plus(Shift({}, 8), Octet(hi)) == Octet(hi);
    UpdateByteDivides(Octet(hi), u, lo);
  }

  lemma Narrowed(w: bv16, hi: bv8, lo: bv8)
    requires hi == (w >> 8) as bv8 && lo == (w & 0xFF) as bv8
    ensures hi as bv16 == w >> 8 && lo as bv16 == w & 0xFF
  {
  }

  lemma ReducedIs(w: bv16, r: bv16)
    requires r == Reduced(w)
    ensures IsRemainder(Terms(w), r)
  {
    var hi, lo := (w >> 8) as bv8, (w & 0xFF) as bv8;
    TwoOctets(hi, lo, UpdateByte(0, hi), r);
    Narrowed(w, hi, lo);
    WordOctets(w, w >> 8, w & 0xFF);
  }

  lemma WordOctets(w: bv16, hi: bv16, lo: bv16)
    requires hi == w >> 8 && lo == w & 0xFF
    ensures hi < 0x100 && lo < 0x100 && Terms(w) == Plus(Shift(Terms(hi), 8), Terms(lo))
  {
    OctetsOf(w, hi, lo);
    WordTerms(w, hi, lo);
  }

  /** The remainder of the square of a word. */
  function Squared(c: bv16): bv16 { Spread(c & 0xFF) ^ Reduced(Spread(c >> 8)) }

  lemma SquaredIs(c: bv16, d: bv16)
    requires d == Squared(c)
    ensures Divisible(Plus(Square(Terms(c)), Terms(d)))
  {
    SquaredOf(c, c >> 8, c & 0xFF, Spread(c >> 8), Spread(c & 0xFF), Reduced(Spread(c >> 8)), d);
  }

  lemma SquaredOf(c: bv16, hi: bv16, lo: bv16, h: bv16, l: bv16, r: bv16, d: bv16)
    requires hi == c >> 8 && lo == c & 0xFF && h == Spread(hi) && l == Spread(lo) && r == Reduced(h) && d == l ^ r
    ensures Divisible(Plus(Square(Terms(c)), Terms(d)))
  {
    WordOctets(c, hi, lo);
    SpreadTerms(hi, h);
    SpreadTerms(lo, l);
    ReducedIs(h, r);
    TermsXor(l, r, d);
    SquareParts(Terms(c), Terms(hi), Terms(lo), Terms(h), Terms(l), Terms(r), Terms(d));
  }

  lemma SquareParts(c: Poly, hi: Poly, lo: Poly, h: Poly, l: Poly, r: Poly, d: Poly)
    requires c == Plus(Shift(hi, 8), lo) && h == Square(hi) && l == Square(lo)
    requires Divisible(Plus(Shift(h, 16), r)) && d == Plus(l, r)
    ensures Divisible(Plus(Square(c), d))
  {
    SquarePlus(Shift(hi, 8), lo);
    SquareShift(hi, 8);
    CancelMiddle(Shift(h, 16), l, {}, r);
    assert Plus(Plus(Shift(h, 16), l), Plus(l, r)) == Plus(Shift(h, 16), r);
  }

  lemma PowerSquared(n: nat, c: bv16, d: bv16)
    requires IsPower(n, c) && d == Squared(c)
    ensures IsPower(2 * n, d)
  {
    DivisibleSquare(Plus({n}, Terms(c)));
    SquarePlus({n}, Terms(c));
    assert Square({n}) == {2 * n};
    SquaredIs(c, d);
    DivisiblePlus(Plus({2 * n}, Square(Terms(c))), Plus(Square(Terms(c)), Terms(d)));
    assert Plus(Plus({2 * n}, Square(Terms(c))), Plus(Square(Terms(c)), Terms(d))) == Plus({2 * n}, Terms(d));
  }

  /** Squaring and multiplying by x, the two steps of exponentiation. */
  lemma PowerOdd(n: nat, c: bv16, d: bv16)
    requires IsPower(n, c) && d == Step(Squared(c), false)
    ensures IsPower(2 * n + 1, d)
  {
    PowerSquared(n, c, Squared(c));
    PowerNext(2 * n, Squared(c), d);
  }

  // ---------------------------------------------------------------- four powers

  lemma FirstPower()
    ensures IsPower(1, 0x0002)
  {
    LowTerms();
    GeneratorDivides();
    assert Plus({0}, {0}) == {};
    PowerNext(0, 0x0001, 0x0002);
  }

  lemma Power16()
    ensures IsPower(4, 0x0010) && IsPower(16, 0x1021)
  {
    FirstPower();
    PowerSquared(1, 0x0002, 0x0004);
    PowerSquared(2, 0x0004, 0x0010);
    PowerSquared(4, 0x0010, 0x0100);
    PowerSquared(8, 0x0100, 0x1021);
  }

  lemma Power217()
    ensures IsPower(217, 0x48e3)
  {
    FirstPower();
    PowerOdd(1, 0x0002, 0x0008);
    PowerSquared(3, 0x0008, 0x0040);
    PowerOdd(6, 0x0040, 0x2000);
    PowerOdd(13, 0x2000, 0x89a9);
    PowerSquared(27, 0x89a9, 0x1168);
    PowerSquared(54, 0x1168, 0x3750);
    PowerOdd(108, 0x3750, 0x48e3);
  }

  lemma Power1057()
    ensures IsPower(1057, 0xf2af)
  {
    Power16();
    PowerOdd(16, 0x1021, 0x6e60);
    PowerSquared(33, 0x6e60, 0xc1c6);
    PowerSquared(66, 0xc1c6, 0x4e8a);
    PowerSquared(132, 0x4e8a, 0x5946);
    PowerSquared(264, 0x5946, 0x78b3);
    PowerOdd(528, 0x78b3, 0xf2af);
  }

  lemma Power4681()
    ensures IsPower(4681, 0x2c42)
  {
    Power16();
    PowerOdd(4, 0x0010, 0x0200);
    PowerSquared(9, 0x0200, 0x4084);
    PowerSquared(18, 0x4084, 0x4363);
    PowerOdd(36, 0x4363, 0x8fa6);
    PowerSquared(73, 0x8fa6, 0x4388);
    PowerSquared(146, 0x4388, 0x1396);
    PowerOdd(292, 0x1396, 0x4500);
    PowerSquared(585, 0x4500, 0x0163);
    PowerSquared(1170, 0x0163, 0x0424);
    PowerOdd(2340, 0x0424, 0x2c42);
  }

  lemma Power32768()
    ensures IsPower(32768, 0x0002)
  {
    Power16();
    PowerSquared(16, 0x1021, 0x3730);
    PowerSquared(32, 0x3730, 0xb861);
    PowerSquared(64, 0xb861, 0xaefc);
    PowerSquared(128, 0xaefc, 0x8e29);
    PowerSquared(256, 0x8e29, 0x13fc);
    PowerSquared(512, 0x13fc, 0x36c4);
    PowerSquared(1024, 0x36c4, 0xfd50);
    PowerSquared(2048, 0xfd50, 0xaa9e);
    PowerSquared(4096, 0xaa9e, 0x881c);
    PowerSquared(8192, 0x881c, 0x4458);
    PowerSquared(16384, 0x4458, 0x0002);
  }

  lemma PeriodReturns()
    ensures Returns(32767)
  {
    Power32768();
    FirstPower();
    var c := Terms(0x0002);
    DivisiblePlus(Plus({32768}, c), Plus({1}, c));
    assert Plus(Plus({32768}, c), Plus({1}, c)) == Plus({32768}, {1});
    assert Shift(Plus({32767}, {0}), 1) == Plus({32768}, {1});
    DivisibleUnshift(Plus({32767}, {0}), 1);
  }

  /** A power that is another word than 1 does not return. */
  lemma OtherWord(n: nat, c: bv16)
    requires IsPower(n, c) && c != 1
    ensures !Returns(n)
  {
    LowTerms();
    if Returns(n) {
      DivisiblePlus(Plus({n}, Terms(c)), Plus({n}, {0}));
      var d := Plus(Terms(c), Terms(1));
      assert Plus(Plus({n}, Terms(c)), Plus({n}, {0})) == d;
      WordNotDivisible(c, 1);
    }
  }

  lemma WordNotDivisible(c: bv16, d: bv16)
    requires Divisible(Plus(Terms(c), Terms(d)))
    ensures c == d
  {
    var e := Plus(Terms(c), Terms(d));
    if e == {} {
      assert Terms(c) == Terms(d);
      TermsInjective(c, d);
    } else {
      var lo, hi := SpanOfDivisible(e);
    }
  }

  lemma ShorterFail()
    ensures !Returns(217) && !Returns(1057) && !Returns(4681)
  {
    Power217();
    Power1057();
    Power4681();
    OtherWord(217, 0x48e3);
    OtherWord(1057, 0xf2af);
    OtherWord(4681, 0x2c42);
  }

  // ---------------------------------------------------------------- the period

  lemma ShiftTerm(i: nat, k: nat)
    ensures Shift({i}, k) == {i + k}
  {
  }

  lemma Chained(x: Poly, y: Poly, z: Poly)
    ensures Plus(Plus(x, y), Plus(y, z)) == Plus(x, z)
  {
  }

  lemma ShiftPair(a: nat, b: nat)
    ensures Shift(Plus({b}, {0}), a) == Plus({a + b}, {a})
  {
    ShiftPlus({b}, {0}, a);
    ShiftTerm(b, a);
    ShiftTerm(0, a);
  }

  /** x^(a + b) + 1 is x^a * (x^b + 1) plus x^a + 1. */
  lemma SumTerms(a: nat, b: nat, s: Poly)
    requires s == Shift(Plus({b}, {0}), a)
    ensures Plus(s, Plus({a}, {0})) == Plus({a + b}, {0})
  {
    ShiftPair(a, b);
    Chained({a + b}, {a}, {0});
  }

  lemma PlusBack(p: Poly, q: Poly, r: Poly)
    requires Plus(q, p) == r
    ensures Plus(r, p) == q
  {
  }

  lemma ReturnsSum(a: nat, b: nat)
    requires Returns(a)
    ensures Returns(a + b) <==> Returns(b)
  {
    var p, q, r := Plus({a}, {0}), Plus({b}, {0}), Plus({a + b}, {0});
    SumTerms(a, b, Shift(q, a));
    PlusBack(p, Shift(q, a), r);
    DivisibleUnshift(q, a);
    if Divisible(q) { DivisiblePlus(Shift(q, a), p); }
    if Divisible(r) { DivisiblePlus(r, p); }
  }

  lemma {:induction false} ReturnsMultiple(a: nat, n: nat)
    requires Returns(a)
    ensures Returns(n * a)
  {
    if n == 0 {
      GeneratorDivides();
      assert Plus({0}, {0}) == {};
    } else {
      ReturnsMultiple(a, n - 1);
      ReturnsSum(a, (n - 1) * a);
    }
  }

  /** A set of numbers that is closed under differences has a common divisor of any two of its members. */
  lemma {:induction false} Descend(s: iset<nat>, a: nat, b: nat) returns (g: nat)
    requires 0 < a && a in s && b in s && forall x: nat, y: nat :: x in s && x + y in s ==> y in s
    ensures 0 < g && g in s && a % g == 0 && b % g == 0
    decreases a + b, a
  {
    if b == 0 {
      g := a;
    } else if b < a {
      g := Descend(s, b, a);
    } else {
      assert a + (b - a) in s;
      g := Descend(s, a, b - a);
      DividesSum(a, b - a, g);
    }
  }

  lemma DividesSum(a: nat, b: nat, g: nat)
    requires 0 < g && a % g == 0 && b % g == 0
    ensures (a + b) % g == 0
  {
    QuotientsAdd(a, b, a / g, b / g, g);
  }

  lemma QuotientsAdd(a: nat, b: nat, x: nat, y: nat, g: nat)
    requires 0 < g && a == x * g && b == y * g
    ensures (a + b) % g == 0
  {
    assert (x + y) * g == x * g + y * g;
    ModUnique(a + b, g, x + y, 0);
  }

  lemma Multiple0(k: nat, g: nat)
    requires 0 < g
    ensures (k * g) % g == 0
  {
    ModUnique(k * g, g, k, 0);
  }

  /** The three primes of the period. */
  predicate Prime(p: nat) { p == 7 || p == 31 || p == 151 }

  lemma PrimeSplits(p: nat, a: nat, b: nat)
    requires Prime(p) && a * b == p
    ensures a == 1 || b == 1
  {
    if a <= 12 {
      SmallFactor(p, a, b);
    } else if b <= 12 {
      SmallFactor(p, b, a);
    } else {
      LargeFactors(a, b);
    }
  }

  lemma LargeFactors(a: nat, b: nat)
    requires a > 12 && b > 12
    ensures a * b > 151
  {
    assert a * b >= 13 * b;
  }

  lemma SmallFactor(p: nat, a: nat, b: nat)
    requires Prime(p) && a * b == p && a <= 12
    ensures a == 1 || b == 1
  {
    assert a == 0 ==> 0 * b == p;
    assert a == 2 ==> 2 * b == p;
    assert a == 3 ==> 3 * b == p;
    assert a == 4 ==> 4 * b == p;
    assert a == 5 ==> 5 * b == p;
    assert a == 6 ==> 6 * b == p;
    assert a == 7 ==> 7 * b == p;
    assert a == 8 ==> 8 * b == p;
    assert a == 9 ==> 9 * b == p;
    assert a == 10 ==> 10 * b == p;
    assert a == 11 ==> 11 * b == p;
    assert a == 12 ==> 12 * b == p;
  }

  predicate DividesProduct(p: nat, b: nat, k: nat)
    requires 0 < p
  {
    (k * b) % p == 0
  }

  lemma ProductsClosed(p: nat, b: nat, x: nat, y: nat)
    requires 0 < p && DividesProduct(p, b, x) && DividesProduct(p, b, x + y)
    ensures DividesProduct(p, b, y)
  {
    assert (x + y) * b == x * b + y * b;
    Difference0(x * b, y * b, p);
  }

  lemma PrimeTimes(p: nat, b: nat)
    requires 0 < p
    ensures DividesProduct(p, b, p) && (DividesProduct(p, b, 1) ==> b % p == 0)
  {
    Multiple0(b, p);
    assert p * b == b * p && 1 * b == b;
  }

  /** A prime that divides a product divides one of its factors. */
  lemma PrimeDivides(p: nat, a: nat, b: nat)
    requires Prime(p) && DividesProduct(p, b, a)
    ensures a % p == 0 || b % p == 0
  {
    var s := iset k: nat | DividesProduct(p, b, k);
    forall x: nat, y: nat | x in s && x + y in s ensures y in s {
      ProductsClosed(p, b, x, y);
    }
    PrimeTimes(p, b);
    var g := Descend(s, p, a);
    assert g * (p / g) == p;
    PrimeSplits(p, g, p / g);
  }

  lemma Difference0(x: nat, y: nat, p: nat)
    requires 0 < p && x % p == 0 && (x + y) % p == 0
    ensures y % p == 0
  {
    assert x == (x / p) * p && x + y == ((x + y) / p) * p;
    ModUnique(y, p, (x + y) / p - x / p, 0);
  }

  /** A proper divisor of the period divides one of its quotients by a prime. */
  lemma ProperDivisor(g: nat, e: nat)
    requires g * e == 32767 && e > 1
    ensures 4681 % g == 0 || 1057 % g == 0 || 217 % g == 0
  {
    Multiple0(4681, 7);
    PrimeDivides(7, e, g);
    if e % 7 == 0 {
      Cancelled(g, e, 7, 4681);
    } else {
      var h := g / 7;
      assert g == 7 * h && 7 * (h * e) == 32767;
      Multiple0(151, 31);
      PrimeDivides(31, e, h);
      if e % 31 == 0 {
        Cancelled(g, e, 31, 1057);
      } else {
        var i := h / 31;
        assert h == 31 * i && 31 * (i * e) == 4681;
        PrimeSplits(151, i, e);
        assert g == 217;
      }
    }
  }

  lemma Cancelled(g: nat, e: nat, p: nat, r: nat)
    requires g * e == p * r && 0 < p && 0 < g && e % p == 0
    ensures r % g == 0
  {
    var f := e / p;
    Regrouped(g, e, p, f);
    SameFactor(p, g * f, r);
    Multiple0(f, g);
  }

  lemma Regrouped(g: nat, e: nat, p: nat, f: nat)
    requires 0 < p && e % p == 0 && f == e / p
    ensures g * e == p * (g * f)
  {
    assert e == p * f;
    assert g * (p * f) == p * (g * f);
  }

  lemma SameFactor(p: nat, x: nat, y: nat)
    requires 0 < p && p * x == p * y
    ensures x == y
  {
    assert x < y ==> p * y >= p * x + p;
    assert y < x ==> p * x >= p * y + p;
  }

  /** x^k is 1 modulo the generator exactly for the multiples of 32767. */
  lemma ReturnsIff(k: nat)
    ensures Returns(k) <==> k % 32767 == 0
  {
    PeriodReturns();
    ReturnsMultiple(32767, k / 32767);
    ReturnsSum(k / 32767 * 32767, k % 32767);
    assert k == k / 32767 * 32767 + k % 32767;
    if k % 32767 == 0 {
      ReturnsMultiple(32767, 0);
    } else if Returns(k % 32767) {
      NoShorter(k % 32767);
    }
  }

  lemma NoShorter(r: nat)
    requires 0 < r < 32767
    ensures !Returns(r)
  {
    if Returns(r) {
      var s := iset k: nat | Returns(k);
      forall x: nat, y: nat | x in s && x + y in s ensures y in s {
        ReturnsSum(x, y);
      }
      PeriodReturns();
      var g := Descend(s, 32767, r);
      var e := 32767 / g;
      assert g * e == 32767;
      assert g <= r by { if g > r { ModUnique(r, g, 0, r); } }
      ProperDivisor(g, e);
      QuotientsReturn(g);
      ShorterFail();
    }
  }

  lemma QuotientsReturn(g: nat)
    requires 0 < g && Returns(g)
    ensures forall n: nat :: n % g == 0 ==> Returns(n)
  {
    forall n: nat | n % g == 0 ensures Returns(n) {
      ReturnsMultiple(g, n / g);
      assert n == (n / g) * g;
    }
  }

  // ---------------------------------------------------------------- errors in two bits

  /** An error in two bits goes unnoticed exactly when 32767 divides their distance. */
  lemma TwoBitErrorMissedIff(m: seq<bv8>, n: seq<bv8>, i: nat, k: nat)
    requires k > 0 && Difference(m, n) == {i, i + k}
    ensures Crc(m) == Crc(n) <==> k % 32767 == 0
  {
    CollisionIffDivisible(m, n);
    assert Difference(m, n) == Shift(Plus({k}, {0}), i);
    DivisibleUnshift(Plus({k}, {0}), i);
    ReturnsIff(k);
  }

  lemma {:induction false} MessageLength(m: seq<bv8>)
    ensures forall i :: i in Message(m) ==> i < 8 * |m|
  {
    if m != [] {
      MessageLength(m[..|m| - 1]);
      OctetTerms(m[|m| - 1] as bv16);
    }
  }

  lemma TwoTerms(d: Poly) returns (i: nat, k: nat)
    requires |d| == 2
    ensures 0 < k && d == {i, i + k} && i + k in d
  {
    i := Least(d);
    var e := d - {i};
    assert |e| == 1;
    var j :| j in e;
    SameSize({j}, e);
    k := j - i;
    assert d == {i} + {i + k};
  }

  lemma DistanceBelow(m: seq<bv8>, n: seq<bv8>, j: nat)
    requires |m| == |n| && j in Difference(m, n)
    ensures j < 8 * |m|
  {
    MessageLength(m);
    MessageLength(n);
    assert j in Message(m) || j in Message(n);
  }

  /** Up to 4095 octets every error in two bits is detected. */
  lemma TwoBitErrorDetected(m: seq<bv8>, n: seq<bv8>)
    requires |m| == |n| <= 4095 && |Difference(m, n)| == 2
    ensures Crc(m) != Crc(n)
  {
    var i, k := TwoTerms(Difference(m, n));
    DistanceBelow(m, n, i + k);
    ModUnique(k, 32767, 0, k);
    TwoBitErrorMissedIff(m, n, i, k);
  }

  lemma SameSize(p: Poly, q: Poly)
    requires p <= q && |p| == |q|
    ensures p == q
  {
    assert q == p + (q - p);
  }
}
