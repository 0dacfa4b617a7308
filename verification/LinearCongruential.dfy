/** UCOSIII/uC-LIB/lib_math.c: the linear congruential generator has full period. */
module LinearCongruential {
  import opened WordArithmetic

  // ---------------------------------------------------------------- the program

  const RAND_LCG_PARAM_M: nat := 0x7FFF_FFFF
  const RAND_LCG_PARAM_A: nat := 1103515245
  const RAND_LCG_PARAM_B: nat := 12345
  const RAND_SEED_INIT_VAL: nat := 1

  /** Math_RandSeed: the product and the sum both wrap at 32 bits before the modulus. */
  function RandSeed(seed: Word): Word {
    ((RAND_LCG_PARAM_A * seed) % WORD + RAND_LCG_PARAM_B) % WORD % (RAND_LCG_PARAM_M + 1)
  }

  /** The n-th number after seed. */
  function Nth(seed: Word, n: nat): Word {
    if n == 0 then seed else RandSeed(Nth(seed, n - 1))
  }

  /** The module's global Math_RandSeedCur, with the seed last set and the numbers drawn since. */
  class Generator {
    var seedCur: Word
    ghost var seed: Word
    ghost var drawn: nat

    ghost predicate Valid()
      reads this
    {
      seedCur == Nth(seed, drawn)
    }

    /** Math_Init. */
    constructor Init()
      ensures Valid() && seed == 1 && drawn == 0
    {
      seedCur, seed, drawn := RAND_SEED_INIT_VAL, RAND_SEED_INIT_VAL, 0;
    }

    /** Math_RandSetSeed. */
    method SetSeed(newSeed: Word)
      modifies this
      ensures Valid() && seed == newSeed && drawn == 0
    {
      seedCur, seed, drawn := newSeed, newSeed, 0;
    }

    /** Math_Rand. */
    method Rand() returns (randNbr: Word)
      requires Valid()
      modifies this
      ensures Valid() && seed == old(seed) && drawn == old(drawn) + 1
      ensures randNbr == seedCur == Nth(seed, drawn) <= 0x7FFF_FFFF
      ensures old(seedCur) == 0 ==> randNbr == 12345
      ensures seed == 1 && drawn == 1 ==> randNbr == 1103527590
      ensures seed == 1 && drawn == 2 ==> randNbr == 377401575
    {
      FirstDraws();
      randNbr := RandSeed(seedCur);
      seedCur := randNbr;
      drawn := drawn + 1;
    }
  }

  // ---------------------------------------------------------------- arithmetic modulo powers of two

  lemma DoubleMod(x: int, p: int)
    requires p > 0
    ensures (2 * x) % (2 * p) == 2 * (x % p)
  {
    var q := x / p;
    assert 2 * x == q * (2 * p) + 2 * (x % p);
    ModUnique(2 * x, 2 * p, q, 2 * (x % p));
  }

  lemma ModAddMultiple(x: int, p: int, m: int)
    requires p > 0
    ensures (x + m * p) % p == x % p
  {
    ModUnique(x + m * p, p, x / p + m, x % p);
  }

  /** An odd factor does not affect divisibility by a power of two. */
  lemma {:induction false} OddCancel(s: int, u: int, k: nat)
    requires u % 2 == 1
    ensures (s * u) % Pow2(k) == 0 <==> s % Pow2(k) == 0
    decreases k
  {
    if k != 0 {
      ParityOfProduct(s, u);
      if s % 2 == 0 {
        var t := s / 2;
        assert s * u == 2 * (t * u);
        OddCancel(t, u, k - 1);
        DoubleMod(t, Pow2(k - 1));
        DoubleMod(t * u, Pow2(k - 1));
      } else {
        OddNotDivisible(s, k);
        OddNotDivisible(s * u, k);
      }
    }
  }

  lemma ParityOfProduct(s: int, u: int)
    requires u % 2 == 1
    ensures (s * u) % 2 == s % 2
  {
    assert s * u == s + (u / 2 * s) * 2;
    ModAddMultiple(s, 2, u / 2 * s);
  }

  lemma OddNotDivisible(s: int, k: nat)
    requires s % 2 == 1 && k > 0
    ensures s % Pow2(k) != 0
  {
    var p := Pow2(k - 1);
    var q := s / (2 * p);
    assert s == 2 * (q * p) + s % (2 * p);
  }

  // ---------------------------------------------------------------- the geometric sum

  function Power(a: nat, n: nat): nat { if n == 0 then 1 else a * Power(a, n - 1) }

  /** 1 + a + ... + a^(n-1). */
  function Sum(a: nat, n: nat): nat { if n == 0 then 0 else a * Sum(a, n - 1) + 1 }

  lemma Distribute(a: nat, p: nat, s: nat, t: nat)
    ensures a * (p * s + t) == (a * p) * s + a * t
  {
    assert a * (p * s) == (a * p) * s;
  }

  lemma {:induction false} SumAdd(a: nat, m: nat, n: nat)
    ensures Sum(a, m + n) == Power(a, m) * Sum(a, n) + Sum(a, m)
  {
    if m != 0 {
      SumAdd(a, m - 1, n);
      Distribute(a, Power(a, m - 1), Sum(a, n), Sum(a, m - 1));
    }
  }

  lemma {:induction false} PowerMod4(a: nat, n: nat)
    requires a % 4 == 1
    ensures Power(a, n) % 4 == 1
  {
    if n != 0 {
      PowerMod4(a, n - 1);
      var p := Power(a, n - 1);
      assert a * p == p + (a / 4 * p) * 4;
      ModAddMultiple(p, 4, a / 4 * p);
    }
  }

  lemma NextTerm(a: nat, q: nat, s: nat) returns (w: nat)
    requires a == 4 * q + 1
    ensures a * s + 1 == s + 1 + 2 * w
  {
    w := 2 * (q * s);
  }

  lemma SameParity(x: nat, y: nat, w: nat)
    requires x == y + 2 * w
    ensures x % 2 == y % 2
  {
  }

  lemma {:induction false} SumIsCount(a: nat, q: nat, n: nat) returns (h: nat)
    requires a == 4 * q + 1
    ensures Sum(a, n) == n + 2 * h
  {
    if n == 0 {
      h := 0;
    } else {
      h := SumIsCount(a, q, n - 1);
      var w := NextTerm(a, q, Sum(a, n - 1));
      h := h + w;
    }
  }

  lemma SumParity(a: nat, n: nat)
    requires a % 4 == 1
    ensures Sum(a, n) % 2 == n % 2
  {
    var h := SumIsCount(a, a / 4, n);
    SameParity(Sum(a, n), n, h);
  }

  lemma SumDouble(a: nat, m: nat) returns (u: nat)
    requires a % 4 == 1
    ensures u % 2 == 1 && Sum(a, 2 * m) == 2 * (Sum(a, m) * u)
  {
    SumAdd(a, m, m);
    PowerMod4(a, m);
    u := Halve(Power(a, m), Sum(a, m));
  }

  lemma Halve(p: nat, s: nat) returns (u: nat)
    requires p % 4 == 1
    ensures u % 2 == 1 && p * s + s == 2 * (s * u)
  {
    u := (p + 1) / 2;
    assert p == 2 * u - 1;
    assert p * s + s == (p + 1) * s == (2 * u) * s;
  }

  /** The sum of n terms and n itself contain the same power of two. */
  lemma {:induction false} SumDivisible(a: nat, n: nat, k: nat)
    requires a % 4 == 1
    ensures Sum(a, n) % Pow2(k) == 0 <==> n % Pow2(k) == 0
    decreases k
  {
    if k != 0 {
      SumParity(a, n);
      if n % 2 == 1 {
        OddNotDivisible(n, k);
        OddNotDivisible(Sum(a, n), k);
      } else {
        var m := n / 2;
        var u := SumDouble(a, m);
        SumDivisible(a, m, k - 1);
        OddCancel(Sum(a, m), u, k - 1);
        DoubleMod(Sum(a, m) * u, Pow2(k - 1));
        DoubleMod(m, Pow2(k - 1));
      }
    }
  }

  // ---------------------------------------------------------------- the recurrence

  /** The recurrence on unbounded integers. */
  function Unbounded(x: nat, n: nat): nat {
    if n == 0 then x else RAND_LCG_PARAM_A * Unbounded(x, n - 1) + RAND_LCG_PARAM_B
  }

  lemma {:induction false} ClosedForm(x: nat, n: nat)
    ensures Unbounded(x, n) == x + Sum(RAND_LCG_PARAM_A, n) * ((RAND_LCG_PARAM_A - 1) * x + RAND_LCG_PARAM_B)
  {
    if n != 0 {
      ClosedForm(x, n - 1);
      var s, k := Sum(RAND_LCG_PARAM_A, n - 1), (RAND_LCG_PARAM_A - 1) * x + RAND_LCG_PARAM_B;
      assert RAND_LCG_PARAM_A * (s * k) + k == (RAND_LCG_PARAM_A * s + 1) * k;
    }
  }

  lemma WrapTwice(t: nat, b: nat, h: nat)
    requires h > 0
    ensures (t % (2 * h) + b) % (2 * h) % h == (t + b) % h
  {
    var y := t % (2 * h) + b;
    var q, r := t / (2 * h), y / (2 * h);
    assert y == y % (2 * h) + (2 * r) * h;
    ModAddMultiple(y % (2 * h), h, 2 * r);
    assert t + b == y + (2 * q) * h;
    ModAddMultiple(y, h, 2 * q);
  }

  /** The two 32-bit wraps do not disturb the recurrence modulo 2^31. */
  lemma WrapIsHarmless(seed: Word)
    ensures RandSeed(seed) == (RAND_LCG_PARAM_A * seed + RAND_LCG_PARAM_B) % (RAND_LCG_PARAM_M + 1)
  {
    WrapTwice(RAND_LCG_PARAM_A * seed, RAND_LCG_PARAM_B, 0x8000_0000);
  }

  lemma StepMod(a: nat, b: nat, x: nat, y: nat, h: nat)
    requires h > 0 && x % h == y % h
    ensures (a * x + b) % h == (a * y + b) % h
  {
    var r, p, q := x % h, x / h, y / h;
    assert a * x + b == a * r + b + (a * p) * h;
    assert a * y + b == a * r + b + (a * q) * h;
    ModAddMultiple(a * r + b, h, a * p);
    ModAddMultiple(a * r + b, h, a * q);
  }

  /** The 32-bit generator follows the unbounded recurrence modulo 2^31. */
  lemma {:induction false} NthIsUnbounded(seed: Word, n: nat)
    ensures Nth(seed, n) % 0x8000_0000 == Unbounded(seed, n) % 0x8000_0000
    ensures n > 0 ==> Nth(seed, n) <= RAND_LCG_PARAM_M
  {
    if n != 0 {
      NthIsUnbounded(seed, n - 1);
      NextIsUnbounded(Nth(seed, n - 1), Unbounded(seed, n - 1));
    }
  }

  lemma NextIsUnbounded(x: Word, y: nat)
    requires x % 0x8000_0000 == y % 0x8000_0000
    ensures RandSeed(x) < 0x8000_0000
    ensures RandSeed(x) % 0x8000_0000 == (RAND_LCG_PARAM_A * y + RAND_LCG_PARAM_B) % 0x8000_0000
  {
    WrapIsHarmless(x);
    StepMod(RAND_LCG_PARAM_A, RAND_LCG_PARAM_B, x, y, 0x8000_0000);
  }

  lemma Pow2Of31()
    ensures Pow2(31) == 0x8000_0000
  {
    assert Pow2(8) == 0x100;
    assert Pow2(16) == 0x1_0000;
    assert Pow2(24) == 0x100_0000;
  }

  // ---------------------------------------------------------------- the theorems

  /** The low k bits of the sequence return to their start after a multiple of 2^k draws, and
      only then; k == 31 is the whole number. */
  lemma LowBitsPeriod(seed: Word, k: nat, n: nat)
    requires k <= 31
    ensures Nth(seed, n) % Pow2(k) == seed % Pow2(k) <==> n % Pow2(k) == 0
  {
    NthLowBits(seed, k, n);
    ClosedForm(seed, n);
    var s, u := Sum(RAND_LCG_PARAM_A, n), (RAND_LCG_PARAM_A - 1) * seed + RAND_LCG_PARAM_B;
    OddFactor(seed);
    OddCancel(s, u, k);
    SumDivisible(RAND_LCG_PARAM_A, n, k);
    DifferenceMod(seed, s * u, Pow2(k));
  }

  lemma OddFactor(x: nat)
    ensures ((RAND_LCG_PARAM_A - 1) * x + RAND_LCG_PARAM_B) % 2 == 1
  {
  }

  lemma DifferenceMod(x: nat, d: nat, p: nat)
    requires p > 0
    ensures (x + d) % p == x % p <==> d % p == 0
  {
    ModAddMultiple(x % p + d % p, p, x / p + d / p);
    assert x + d == x % p + d % p + (x / p + d / p) * p;
    if x % p + d % p >= p {
      ModUnique(x % p + d % p, p, 1, x % p + d % p - p);
    } else {
      ModUnique(x % p + d % p, p, 0, x % p + d % p);
    }
  }

  lemma NthLowBits(seed: Word, k: nat, n: nat)
    requires k <= 31
    ensures Nth(seed, n) % Pow2(k) == Unbounded(seed, n) % Pow2(k)
  {
    NthIsUnbounded(seed, n);
    Pow2Of31();
    var m := Pow2Divides(k, 31);
    SameModDivisor(Nth(seed, n), Unbounded(seed, n), Pow2(k), m);
  }

  lemma {:induction false} Pow2Divides(j: nat, k: nat) returns (m: nat)
    requires j <= k
    ensures m > 0 && Pow2(k) == m * Pow2(j)
  {
    m := 1;
    if j < k {
      var h := Pow2Divides(j, k - 1);
      m := 2 * h;
      assert 2 * (h * Pow2(j)) == m * Pow2(j);
    }
  }

  lemma SameModDivisor(x: nat, y: nat, p: nat, m: nat)
    requires p > 0 && m > 0 && x % (m * p) == y % (m * p)
    ensures x % p == y % p
  {
    var r := x % (m * p);
    var a, b := x / (m * p), y / (m * p);
    assert x == r + (a * m) * p && y == r + (b * m) * p;
    ModAddMultiple(r, p, a * m);
    ModAddMultiple(r, p, b * m);
  }

  lemma {:induction false} NthAdd(seed: Word, m: nat, n: nat)
    ensures Nth(seed, m + n) == Nth(Nth(seed, m), n)
  {
    if n != 0 { NthAdd(seed, m, n - 1); }
  }

  /** From any seed in range, two draws agree exactly when 2^31 divides their distance: the
      sequence has period 2^31 and repeats nothing sooner. */
  lemma FullPeriod(seed: Word, i: nat, j: nat)
    requires seed < 0x8000_0000 && i <= j
    ensures Nth(seed, i) == Nth(seed, j) <==> (j - i) % 0x8000_0000 == 0
  {
    NthInRange(seed, i);
    NthInRange(seed, j);
    NthAdd(seed, i, j - i);
    ReturnTime(Nth(seed, i), j - i);
  }

  lemma NthInRange(seed: Word, n: nat)
    requires seed <= RAND_LCG_PARAM_M
    ensures Nth(seed, n) <= RAND_LCG_PARAM_M
  {
    NthIsUnbounded(seed, n);
  }

  lemma ReturnTime(x: Word, n: nat)
    requires x <= RAND_LCG_PARAM_M
    ensures Nth(x, n) == x <==> n % 0x8000_0000 == 0
  {
    Pow2Of31();
    NthInRange(x, n);
    LowBitsPeriod(x, 31, n);
    ModUnique(x, Pow2(31), 0, x);
    ModUnique(Nth(x, n), Pow2(31), 0, Nth(x, n));
  }

  lemma OtherResidue(x: nat, y: nat, v: nat, p: nat)
    requires p > 0 && x % p == v % p == y % p
    requires x % (2 * p) != v % (2 * p) && y % (2 * p) != x % (2 * p)
    ensures y % (2 * p) == v % (2 * p)
  {
    TwoResidues(x, p);
    TwoResidues(y, p);
    TwoResidues(v, p);
  }

  lemma HalfPeriod(seed: Word, n: nat, k: nat, p: nat)
    requires k < 31 && p == Pow2(k)
    ensures Nth(seed, n + p) % p == Nth(seed, n) % p
    ensures Nth(seed, n + p) % (2 * p) != Nth(seed, n) % (2 * p)
  {
    NthAdd(seed, n, p);
    HalfPeriodFrom(Nth(seed, n), k, p);
  }

  lemma HalfPeriodFrom(x: Word, k: nat, p: nat)
    requires k < 31 && p == Pow2(k)
    ensures Nth(x, p) % p == x % p && Nth(x, p) % (2 * p) != x % (2 * p)
  {
    ModUnique(p, p, 1, 0);
    ModUnique(p, 2 * p, 0, p);
    LowBitsPeriod(x, k, p);
    LowBitsPeriod(x, k + 1, p);
  }

  lemma TwoResidues(x: nat, p: nat)
    requires p > 0
    ensures x % (2 * p) == x % p || x % (2 * p) == x % p + p
  {
    var r := x % (2 * p);
    assert x == r + (2 * (x / (2 * p))) * p;
    ModAddMultiple(r, p, 2 * (x / (2 * p)));
    if r >= p {
      ModUnique(r, p, 1, r - p);
    } else {
      ModUnique(r, p, 0, r);
    }
  }

  /** Every pattern of the low k bits turns up within 2^k draws. */
  lemma {:induction false} LowBitsVisited(seed: Word, k: nat, v: nat) returns (n: nat)
    requires k <= 31
    ensures n < Pow2(k) && Nth(seed, n) % Pow2(k) == v % Pow2(k)
  {
    if k == 0 {
      n := 0;
    } else {
      var p := Pow2(k - 1);
      n := LowBitsVisited(seed, k - 1, v);
      if Nth(seed, n) % (2 * p) != v % (2 * p) {
        HalfPeriod(seed, n, k - 1, p);
        OtherResidue(Nth(seed, n), Nth(seed, n + p), v, p);
        n := n + p;
      }
    }
  }

  /** Every value in [0, RAND_LCG_PARAM_M] is drawn, once, in each run of 2^31 draws. */
  lemma VisitsEverything(seed: Word, v: nat) returns (n: nat)
    requires seed < 0x8000_0000 && v < 0x8000_0000
    ensures n < 0x8000_0000 && Nth(seed, n) == v
    ensures forall m: nat :: m < 0x8000_0000 && Nth(seed, m) == v ==> m == n
  {
    n := Visited(seed, v);
    forall m: nat | m < 0x8000_0000 && Nth(seed, m) == Nth(seed, n) ensures m == n {
      DrawnOnce(seed, m, n);
    }
  }

  lemma Visited(seed: Word, v: nat) returns (n: nat)
    requires seed <= RAND_LCG_PARAM_M && v <= RAND_LCG_PARAM_M
    ensures n < 0x8000_0000 && Nth(seed, n) == v
  {
    Pow2Of31();
    n := LowBitsVisited(seed, 31, v);
    NthInRange(seed, n);
    SameBelow(Nth(seed, n), v, 0x8000_0000);
  }

  lemma SameBelow(x: nat, y: nat, p: nat)
    requires x < p && y < p && x % p == y % p
    ensures x == y
  {
    ModUnique(x, p, 0, x);
    ModUnique(y, p, 0, y);
  }

  lemma DrawnOnce(seed: Word, m: nat, n: nat)
    requires seed <= RAND_LCG_PARAM_M && m < 0x8000_0000 && n < 0x8000_0000
    requires Nth(seed, m) == Nth(seed, n)
    ensures m == n
  {
    if m <= n { FullPeriod(seed, m, n); } else { FullPeriod(seed, n, m); }
  }

  /** A seed beyond the range joins, after one draw, the cycle of its low 31 bits. */
  lemma LargeSeed(seed: Word, n: nat)
    requires n > 0
    ensures Nth(seed, n) == Nth(seed % 0x8000_0000, n)
    decreases n
  {
    if n == 1 {
      WrapIsHarmless(seed);
      WrapIsHarmless(seed % 0x8000_0000);
      StepMod(RAND_LCG_PARAM_A, RAND_LCG_PARAM_B, seed, seed % 0x8000_0000, 0x8000_0000);
      assert Nth(seed, 0) == seed && Nth(seed % 0x8000_0000, 0) == seed % 0x8000_0000;
    } else {
      LargeSeed(seed, n - 1);
    }
  }

  lemma FirstIs(seed: Word, q: nat, r: nat)
    requires r < 0x8000_0000 && 1103515245 * seed + 12345 == q * 0x8000_0000 + r
    ensures Nth(seed, 1) == RandSeed(seed) == r
  {
    assert Nth(seed, 0) == seed;
    WrapIsHarmless(seed);
    ModUnique(1103515245 * seed + 12345, 0x8000_0000, q, r);
  }

  lemma SecondIs(seed: Word)
    ensures Nth(seed, 2) == RandSeed(Nth(seed, 1))
  {
  }

  /** The first numbers: from seed 0, and after the initialization. */
  lemma FirstDraws()
    ensures Nth(0, 1) == 12345 && Nth(1, 1) == 1103527590 && Nth(1, 2) == 377401575
  {
    FirstIs(0, 0, 12345);
    FirstIs(1, 0, 1103527590);
    FirstIs(1103527590, 567063465, 377401575);
    SecondIs(1);
  }

  /** From one seed to the next the first draw advances by the multiplier modulo 2^31. */
  lemma NextSeed(seed: Word)
    requires seed + 1 < WORD
    ensures (Nth(seed + 1, 1) - Nth(seed, 1)) % 0x8000_0000 == 1103515245
  {
    assert Nth(seed, 0) == seed && Nth(seed + 1, 0) == seed + 1;
    WrapIsHarmless(seed);
    WrapIsHarmless(seed + 1);
    var x := RAND_LCG_PARAM_A * seed + RAND_LCG_PARAM_B;
    assert RAND_LCG_PARAM_A * (seed + 1) + RAND_LCG_PARAM_B == x + 1103515245;
    ModDifference(x, 1103515245, 0x8000_0000);
  }

  lemma ModDifference(x: nat, d: nat, p: nat)
    requires d < p
    ensures ((x + d) % p - x % p) % p == d
  {
    ModUnique((x + d) % p - x % p, p, x / p - (x + d) / p, d);
  }
}
