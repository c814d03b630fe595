/** Quotients and remainders. */
module Arith {

  lemma Scale(a: int, b: int, c: nat)
    requires a <= b
    ensures a * c <= b * c
  {
  }

  lemma Regroup(a: int, b: int, c: int)
    ensures a * (b * c) == (a * b) * c
  {
  }

  /** Quotient and remainder are unique. */
  lemma DivMod(n: nat, k: nat, q: nat, r: nat)
    requires k > 0 && n == q * k + r && r < k
    ensures n / k == q && n % k == r
  {
    var x := n / k;
    assert n == x * k + n % k;
    if x > q { Scale(q + 1, x, k); } else if x < q { Scale(x + 1, q, k); }
  }

  lemma Quotient(n: nat, c: nat, k: nat)
    requires c > 0 && k * c <= n
    ensures n / c >= k && (n / c) * c <= n
  {
    if n / c < k { Scale(n / c + 1, k, c); }
  }

  lemma Multiple(q: nat, m: nat)
    requires m > 0
    ensures (q * m) % m == 0 && (q * m) / m == q
  {
    DivMod(q * m, m, q, 0);
  }

  lemma AddMultiple(n: nat, q: nat, m: nat)
    requires m > 0
    ensures (n + q * m) % m == n % m && (n + q * m) / m == n / m + q
  {
    Distribute(n / m, q, m);
    DivMod(n + q * m, m, n / m + q, n % m);
  }

  /** A multiple of a multiple is a multiple. */
  lemma MultipleOf(a: nat, b: nat, c: nat)
    requires b > 0 && c > 0 && a % b == 0 && b % c == 0
    ensures a % c == 0
  {
    var p, q := a / b, b / c;
    assert a == p * b && b == q * c;
    Regroup(p, q, c);
    Multiple(p * q, c);
  }

  lemma ScaledMultiple(a: nat, b: nat, c: nat)
    requires b > 0 && c > 0
    ensures b * c > 0 && ((a * c) % (b * c) == 0 <==> a % b == 0)
  {
    var q, r := a / b, a % b;
    assert a == q * b + r;
    Scale(1, b, c);
    Distribute(q * b, r, c);
    Regroup(q, b, c);
    Scale(r + 1, b, c);
    Distribute(r, 1, c);
    if r > 0 { Scale(1, r, c); }
    DivMod(a * c, b * c, q, r * c);
  }

  lemma Distribute(a: int, b: int, c: int)
    ensures (a + b) * c == a * c + b * c
  {
  }

  /** RT_ALIGN for a positive `m` */
  function RoundUp(n: nat, m: nat): nat
    requires m > 0
  {
    (n + m - 1) / m * m
  }

  lemma RoundUpIs(n: nat, m: nat)
    requires m > 0
    ensures n <= RoundUp(n, m) < n + m && RoundUp(n, m) % m == 0 && RoundUp(n, m) / m == (n + m - 1) / m
  {
    var q := (n + m - 1) / m;
    assert n + m - 1 == q * m + (n + m - 1) % m;
    Multiple(q, m);
  }
}
