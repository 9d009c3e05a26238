/** Powers of two and remainders. */
module Arithmetic {

  function Pow2(k: nat): (p: nat)
    ensures p > 0
  {
    if k == 0 then 1 else 2 * Pow2(k - 1)
  }

  /** Distinct numbers less than n apart differ modulo n. */
  lemma ModApart(a: int, b: int, n: nat)
    requires n > 0 && a < b < a + n
    ensures a % n != b % n
  {
    var qa, qb := a / n, b / n;
    assert a == qa * n + a % n && b == qb * n + b % n;
    if a % n == b % n {
      assert b - a == (qb - qa) * n;
      MultipleGap(qb - qa, n);
    }
  }

  lemma MultipleGap(q: int, n: nat)
    requires n > 0
    ensures q * n <= 0 || q * n >= n
  {
    if q >= 1 { assert (q - 1) * n >= 0; } else { assert q * n <= 0; }
  }

  lemma ModUnique(s: int, n: nat, q: int, r: int)
    requires n > 0 && s == q * n + r && 0 <= r < n
    ensures s % n == r
  {
    var q', r' := s / n, s % n;
    assert s == q' * n + r';
    assert (q - q') * n == r' - r;
    MultipleGap(q - q', n);
    MultipleGap(q' - q, n);
    assert (q' - q) * n == -((q - q') * n);
  }

  lemma ModWraps(a: int, n: nat)
    requires n > 0
    ensures (a + n) % n == a % n
  {
    var q, r := a / n, a % n;
    assert a == q * n + r;
    assert a + n == (q + 1) * n + r;
    ModUnique(a + n, n, q + 1, r);
  }
}
