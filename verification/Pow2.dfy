// Powers of two and nested quotients.
module Pow2 {

  function Pow(n: nat): (r: nat)
    ensures r > 0
  {
    if n == 0 then 1 else 2 * Pow(n - 1)
  }

  // a without its n low bits.
  function High(a: nat, n: nat): nat {
    Quotient(a, Pow(n))
  }

  function Quotient(a: nat, d: nat): nat
    requires d > 0
  {
    a / d
  }

  lemma {:induction false} PowAdd(a: nat, b: nat)
    ensures Pow(a + b) == Pow(a) * Pow(b)
  {
    if b > 0 {
      PowAdd(a, b - 1);
      Doubled(Pow(a), Pow(b - 1));
    }
  }

  lemma Doubled(x: nat, y: nat)
    ensures x * (2 * y) == 2 * (x * y)
  {
  }

  lemma QuotientIs(a: nat, d: nat, q: nat)
    requires q * d <= a < q * d + d
    ensures d > 0 && a / d == q
  {
    var e := a / d;
    assert a == e * d + a % d;
    if e < q {
      assert (e + 1) * d <= q * d by { Monotone(e + 1, q, d); }
    } else if e > q {
      assert (q + 1) * d <= e * d by { Monotone(q + 1, e, d); }
    }
  }

  lemma Monotone(a: nat, b: nat, d: nat)
    requires a <= b
    ensures a * d <= b * d
  {
    assert b * d == a * d + (b - a) * d;
  }

  lemma DivDiv(a: nat, m: nat, n: nat)
    requires m > 0 && n > 0
    ensures m * n > 0 && (a / m) / n == a / (m * n)
  {
    var q := a / m;
    var q' := q / n;
    Parts(a, m);
    Parts(q, n);
    Monotone(q % n + 1, n, m);
    Regroup(q', n, q % n, m);
    QuotientIs(a, m * n, q');
  }

  lemma Parts(a: nat, d: nat)
    requires d > 0
    ensures a == (a / d) * d + a % d && a % d < d
  {
  }

  lemma Regroup(x: nat, n: nat, y: nat, m: nat)
    ensures (x * n + y) * m == x * (m * n) + y * m
    ensures (y + 1) * m == y * m + m
    ensures n * m == m * n
  {
  }
}
