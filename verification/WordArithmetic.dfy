/** Arithmetic on 32-bit words, remainders and powers of two. */
module WordArithmetic {

  /** CPU_ADDR, CPU_SIZE_T and RAND_NBR are 32-bit unsigned integers on this port. */
  const WORD: nat := 0x1_0000_0000
  type Word = n: nat | n < 0x1_0000_0000

  function Wrap(n: int): Word { n % WORD }

  lemma ProductMonotone(s: nat, j: nat, k: nat)
    ensures j <= k ==> s * j <= s * k
    ensures s * j >= 0
  {
    if j <= k { assert s * k == s * j + s * (k - j); }
  }

  /** Quotient and remainder are unique. */
  lemma ModUnique(x: int, p: int, q: int, r: int)
    requires p > 0 && 0 <= r < p && x == q * p + r
    ensures x % p == r && x / p == q
  {
    var d := x / p - q;
    assert d * p == r - x % p;
    assert d >= 1 ==> d * p >= p;
    assert d <= -1 ==> d * p <= -p;
  }

  lemma MultipleMod(k: int, align: nat)
    requires align > 0
    ensures (k * align) % align == 0
  {
    ModUnique(k * align, align, k, 0);
  }

  lemma WrapSmall(n: int)
    requires 0 <= n < WORD
    ensures Wrap(n) == n
  {
    ModUnique(n, WORD, 0, n);
  }

  lemma WrapOnce(n: int)
    requires 0 <= n < 2 * WORD
    ensures Wrap(n) == if n < WORD then n else n - WORD
  {
    if n < WORD { WrapSmall(n); } else { ModUnique(n, WORD, 1, n - WORD); }
  }

  lemma WrapSum(a: int, b: int, c: int)
    ensures Wrap(a + Wrap(b) * c) == Wrap(a + b * c)
  {
    var q := b / WORD;
    assert a + b * c == a + Wrap(b) * c + (q * c) * WORD;
    var x := a + Wrap(b) * c;
    ModUnique(x + (q * c) * WORD, WORD, x / WORD + q * c, x % WORD);
  }

  function Pow2(n: nat): (p: nat)
    ensures p > 0
  {
    if n == 0 then 1 else 2 * Pow2(n - 1)
  }
}
