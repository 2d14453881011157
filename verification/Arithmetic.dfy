// Quotients and remainders by a variable divisor, and powers of two.
module Arithmetic {
  lemma {:induction false} MulStep(d: nat, a: nat, b: nat)
    requires a < b
    ensures d * a + d <= d * b
  {
    if a + 1 < b { MulStep(d, a, b - 1); }
    assert d * b == d * (b - 1) + d;
  }

  lemma ModUnique(x: nat, d: nat, q: nat, r: nat)
    requires d > 0 && r < d && x == d * q + r
    ensures x % d == r && x / d == q
  {
    var q', r' := x / d, x % d;
    assert x == d * q' + r';
    if q' > q { MulStep(d, q, q'); }
    if q' < q { MulStep(d, q', q); }
  }

  lemma DivNext(k: nat, n: nat)
    requires n > 0
    ensures k % n + 1 < n ==> (k + 1) / n == k / n && (k + 1) % n == k % n + 1
    ensures k % n + 1 == n ==> (k + 1) / n == k / n + 1 && (k + 1) % n == 0
  {
    var q, r := k / n, k % n;
    assert k == n * q + r;
    if r + 1 < n {
      ModUnique(k + 1, n, q, r + 1);
    } else {
      assert n * (q + 1) == n * q + n;
      ModUnique(k + 1, n, q + 1, 0);
    }
  }

  lemma QuotientBelow(k: nat, n: nat, c: nat)
    requires n > 0 && k < n * c
    ensures k / n < c
  {
  }

  function Pow2(k: nat): (p: nat)
    ensures p > 0
  {
    if k == 0 then 1 else 2 * Pow2(k - 1)
  }

  lemma {:induction false} Pow2Sum(a: nat, b: nat)
    ensures Pow2(a + b) == Pow2(a) * Pow2(b)
  {
    if a > 0 { Pow2Sum(a - 1, b); }
  }
}
