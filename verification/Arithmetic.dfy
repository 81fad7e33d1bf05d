/** Facts of integer arithmetic the proofs lean on, and the width of the program's integers. */
module Arithmetic {
  /** One more than the largest unsigned 64-bit value. */
  const WORD: nat := 0x1_0000_0000_0000_0000

  /** Only zero is a multiple of `d` strictly between -d and d. */
  lemma SmallMultiple(d: int, k: int)
    requires -d < d * k < d
    ensures k == 0
  {
    if k >= 1 {
      Monotone(d, 1, k);
    } else if k <= -1 {
      Monotone(d, k, -1);
    }
  }

  lemma Monotone(d: int, i: int, j: int)
    requires d >= 0 && i <= j
    ensures d * i <= d * j
  {
    assert d * (j - i) >= 0;
  }

  lemma Distribute(a: int, b: int, c: int)
    ensures a * (b + c) == a * b + a * c
  {
  }

  /** `n / d` rounded up. */
  function CeilDiv(n: nat, d: nat): (k: nat)
    requires d > 0
    ensures IsCeil(k, n, d)
  {
    var k := n / d + (if n % d != 0 then 1 else 0);
    assert n == d * (n / d) + n % d;
    assert n % d != 0 ==> d * k == d * (n / d) + d by {
      Distribute(d, n / d, 1);
    }
    k
  }

  /** `k` is the least number whose `d`-fold is at least `n`. */
  ghost predicate IsCeil(k: int, n: int, d: int) {
    d * k - d < n <= d * k
  }

  lemma CeilIsUnique(j: int, k: int, n: int, d: int)
    requires d > 0 && IsCeil(j, n, d) && IsCeil(k, n, d)
    ensures j == k
  {
    Distribute(d, j, -k);
    SmallMultiple(d, j - k);
  }
}
