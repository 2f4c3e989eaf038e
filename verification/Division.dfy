/** Quotients and remainders of products. */
module Division {
  lemma ModOf(n: nat, q: nat, r: nat)
    requires r < n
    ensures n * q >= 0 && (n * q + r) % n == r
  {
    Product(n, q);
    Unique(n, q, r, (n * q + r) / n, (n * q + r) % n);
  }

  lemma Product(n: nat, q: nat)
    ensures n * q >= 0
  {
  }

  /** Quotient and remainder are unique. */
  lemma Unique(n: nat, j: nat, i: nat, q: nat, r: nat)
    requires i < n && r < n && n * j + i == n * q + r
    ensures j == q && i == r
  {
    if j < q { Strict(n, j, q); } else if q < j { Strict(n, q, j); }
  }

  lemma {:induction false} Strict(n: nat, a: nat, b: nat)
    requires a < b
    ensures n * b >= n * a + n
  {
    if a + 1 < b { Strict(n, a, b - 1); }
    assert n * b == n * (b - 1) + n;
  }
}
