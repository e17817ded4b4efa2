/** Products and quotients of two variables, for proofs that need a step of them. */
module Arith {
  lemma MulStep(a: int, k: nat)
    ensures a >= 1 ==> a * k >= k
    ensures a <= -1 ==> a * k <= -(k as int)
  {
  }

  lemma DivMod(x: nat, k: nat)
    requires 0 < k
    ensures x == x / k * k + x % k && 0 <= x % k < k
  {
  }

  lemma DivModUnique(k: nat, q: nat, r: nat, x: nat)
    requires 0 < k && r < k && x == q * k + r
    ensures x / k == q && x % k == r
  {
    DivMod(x, k);
    MulStep(x / k - q, k);
    assert (x / k - q) * k == x / k * k - q * k;
  }

  lemma DivBound(x: nat, k: nat, b: nat)
    requires 0 < k && x < b * k
    ensures 0 <= x / k < b
  {
    DivMod(x, k);
    MulStep(x / k - b + 1, k);
    assert (x / k - b + 1) * k == x / k * k - b * k + k;
  }

  lemma MulOrder(a: nat, b: nat, u: nat)
    requires a <= b
    ensures a * u <= b * u && u * a <= u * b
  {
    assert (b - a) * u == b * u - a * u;
  }

  lemma MultipleWithin(n: nat, u: nat, q: nat)
    requires 0 < u && q * u <= n
    ensures q <= n / u
  {
    DivMod(n, u);
    MulStep(q - n / u, u);
    assert (q - n / u) * u == q * u - n / u * u;
  }

  lemma QuotientOrder(n: nat, w: nat, u: nat)
    requires 0 < u <= w
    ensures n / w <= n / u
  {
    DivMod(n, w);
    MulOrder(u, w, n / w);
    MultipleWithin(n, u, n / w);
  }
}
