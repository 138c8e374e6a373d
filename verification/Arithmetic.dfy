/** Multiplication, quotients and powers of two, as far as the addresses need them. */
module Arithmetic {
  function Pow2(k: nat): (p: nat)
    ensures 0 < p
  {
    if k == 0 then 1 else 2 * Pow2(k - 1)
  }

  lemma MulMono(a: nat, b: nat, m: nat)
    requires a <= b
    ensures a * m <= b * m
  {}

  lemma MulLess(m: nat, n: nat, p: nat, x: nat)
    requires x < p
    ensures m <= n ==> m * p <= x + n * p
    ensures n < m ==> x + n * p < m * p
  {
    if m <= n {
      MulMono(m, n, p);
    } else {
      MulMono(n + 1, m, p);
      assert (n + 1) * p == n * p + p;
    }
  }

  lemma DivModUnique(n: nat, q: nat, r: nat)
    requires r < n
    ensures (q * n + r) / n == q && (q * n + r) % n == r
  {
    var x := q * n + r;
    var p := x / n;
    assert x == p * n + x % n;
    MulLess(q, p, n, x % n);
    MulLess(p, q, n, r);
  }

  lemma {:induction false} Quotient(l: nat, n: nat) returns (q: nat, r: nat)
    requires 0 < n
    ensures l == q * n + r && r < n
  {
    if l < n {
      q, r := 0, l;
    } else {
      q, r := Quotient(l - n, n);
      q := q + 1;
    }
  }

  lemma MulGap(a: int, b: int, d: nat)
    ensures a < b ==> a * d + d <= b * d
  {
    if a < b {
      Multiple(b - a - 1, d);
      assert b * d == a * d + d + (b - a - 1) * d;
    }
  }

  lemma Multiple(k: nat, d: nat)
    ensures 0 <= k * d
  {}

  lemma QuotientNat(a: nat, n: nat)
    requires 0 < n
    ensures 0 <= a / n
  {
    var q, r := Quotient(a, n);
    DivModUnique(n, q, r);
  }

  lemma QuotientGrows(a: nat, b: nat, n: nat)
    requires a <= b && 0 < n
    ensures a / n <= b / n
  {
    var p, r := Quotient(a, n);
    var q, t := Quotient(b, n);
    MulLess(p, q, n, t);
    assert p <= q;
    QuotientIs(a, n, p, r);
    QuotientIs(b, n, q, t);
  }

  lemma QuotientIs(a: nat, n: nat, q: nat, r: nat)
    requires a == q * n + r && r < n
    ensures a / n == q
  {
    DivModUnique(n, q, r);
  }
}
