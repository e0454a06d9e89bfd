/** Division by a positive number, where the solver needs a hand. */
module Division {
  lemma MultipleStep(a: int, b: int, n: nat)
    requires a < b
    ensures a * n + n <= b * n
  {
    assert b * n == (b - a - 1) * n + a * n + n;
  }

  lemma QuotientIs(k: int, n: nat, q: int, r: nat)
    requires r < n && k == q * n + r
    ensures k / n == q && k % n == r
  {
    if q < k / n {
      MultipleStep(q, k / n, n);
    } else if k / n < q {
      MultipleStep(k / n, q, n);
    }
  }

  lemma MultipleOf(q: nat, a: nat)
    requires a > 0
    ensures q * a % a == 0
  {
    QuotientIs(q * a, a, q, 0);
  }

  /** Different multiples of a are at least a apart. */
  lemma MultiplesApart(m: nat, p: nat, a: nat)
    requires a > 0 && m % a == 0 && p % a == 0 && p < m
    ensures p + a <= m
  {
    if p / a < m / a {
      MultipleStep(p / a, m / a, a);
    } else if m / a < p / a {
      MultipleStep(m / a, p / a, a);
    }
  }
}
