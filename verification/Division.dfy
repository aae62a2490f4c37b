/** Division with remainder by a variable divisor. */
module Division {
  lemma Larger(p: nat, a: nat, b: nat)
    requires a <= b
    ensures p * a <= p * b
  {
  }

  lemma SmallerFactor(p: nat, a: nat, b: nat)
    requires p * a < p * b
    ensures a < b
  {
    if b <= a {
      Larger(p, b, a);
    }
  }

  // Quotient and remainder are determined by their equation.
  lemma Divided(n: nat, p: nat, q: nat, r: nat)
    requires n == p * q + r && r < p
    ensures n / p == q && n % p == r
  {
    var d := n / p;
    assert n == p * d + n % p;
    if d < q {
      Larger(p, d + 1, q);
    } else if d > q {
      Larger(p, q + 1, d);
    }
  }

  lemma SameQuotient(n: nat, m: nat, p: nat)
    requires p > 0 && n / p == m / p && n % p == m % p
    ensures n == m
  {
    assert n == p * (n / p) + n % p;
    assert m == p * (m / p) + m % p;
  }
}
