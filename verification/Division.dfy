/** Division by a variable divisor, as the chunk and block counts need it. */
module Division {

  lemma MulGap(a: int, b: int, d: nat)
    requires a < b
    ensures a * d + d <= b * d
    decreases b - a
  {
    if a + 1 < b {
      MulGap(a, b - 1, d);
      assert (b - 1) * d == b * d - d;
    } else {
      assert b * d == (a + 1) * d == a * d + d;
    }
  }

  lemma DivUnique(n: nat, d: nat, q: nat, r: nat)
    requires 0 < d && n == q * d + r && r < d
    ensures n / d == q && n % d == r
  {
    var p, s := n / d, n % d;
    assert n == p * d + s;
    if p < q {
      MulGap(p, q, d);
    } else if q < p {
      MulGap(q, p, d);
    }
  }

  lemma DivBound(n: nat, d: nat, m: nat)
    requires 0 < d
    ensures n / d < m <==> n < m * d
  {
    var q := n / d;
    assert n == q * d + n % d;
    if q < m {
      MulGap(q, m, d);
    } else if m < q {
      MulGap(m, q, d);
    }
  }

  lemma DivStep(n: nat, d: nat)
    requires 0 < d <= n
    ensures n / d == (n - d) / d + 1 && n % d == (n - d) % d
  {
    var q, r := (n - d) / d, (n - d) % d;
    assert (q + 1) * d == q * d + d;
    DivUnique(n, d, q + 1, r);
  }

  /** `q * c`, kept as a term of its own. */
  function Times(q: nat, c: nat): nat {
    if q == 0 then 0 else Times(q - 1, c) + c
  }

  lemma {:induction false} TimesIsProduct(q: nat, c: nat)
    ensures Times(q, c) == q * c
  {
    if q > 0 {
      TimesIsProduct(q - 1, c);
      assert q * c == (q - 1) * c + c;
    }
  }

  /** `n / d` and `n % d`, found by repeated subtraction. */
  function Quot(n: nat, d: nat): nat
    requires 0 < d
  {
    if n < d then 0 else Quot(n - d, d) + 1
  }

  function Rem(n: nat, d: nat): (r: nat)
    requires 0 < d
    ensures r < d
  {
    if n < d then n else Rem(n - d, d)
  }

  lemma {:induction false} QuotRem(n: nat, d: nat)
    requires 0 < d
    ensures Quot(n, d) == n / d && Rem(n, d) == n % d
    decreases n
  {
    if n < d {
      DivUnique(n, d, 0, n);
    } else {
      QuotRem(n - d, d);
      DivStep(n, d);
    }
  }
}
