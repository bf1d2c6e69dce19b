/** Facts of integer multiplication and division that the solver needs spelled out. */
module Arithmetic {

  function Max(a: int, b: int): int {
    if a > b then a else b
  }

  lemma {:induction false} AtLeast(j: int, k: int, d: nat)
    requires j >= k
    ensures j * d >= k * d
  {
  }

  lemma {:induction false} Positive(m: int, n: int)
    requires m > 0 && n > 0
    ensures m * n > 0
  {
  }

  lemma {:induction false} Cancel(j: int, k: int, d: int)
    requires d > 0 && j * d == k * d
    ensures j == k
  {
  }

  lemma {:induction false} TimesNext(k: int, n: int)
    ensures (k + 1) * n == k * n + n
  {
  }

  /** Dividing a multiple gives back the factor. */
  lemma {:induction false} QuotientOf(k: int, d: nat)
    requires d > 0
    ensures k * d / d == k
  {
    var q, r := k * d / d, k * d % d;
    assert k * d == q * d + r && 0 <= r < d;
    assert (k - q) * d == k * d - q * d;
    if k > q {
      AtLeast(k - q, 1, d);
    } else if k < q {
      AtLeast(q - k, 1, d);
    }
  }

  lemma {:induction false} Remainder(x: nat, m: nat)
    requires 0 < m && x <= m
    ensures x % m == if x < m then x else 0
  {
  }

  lemma {:induction false} DivisionUnique(x: nat, n: nat, quotient: nat, rest: nat)
    requires rest < n && x == quotient * n + rest
    ensures quotient == x / n && rest == x % n
  {
    var k := quotient - x / n;
    assert x == n * (x / n) + x % n;
    assert k * n == x % n - rest by {
      assert quotient * n - n * (x / n) == k * n;
    }
    assert -1 < k < 1;
  }

  /** Counting on by one either raises the remainder by one, or completes a multiple of `n`. */
  lemma {:induction false} NextRemainder(x: nat, n: nat)
    requires n > 0
    ensures x % n == n - 1 ==> (x + 1) % n == 0 && (x + 1) / n == x / n + 1
    ensures x % n != n - 1 ==> (x + 1) % n == x % n + 1 && (x + 1) / n == x / n
  {
    var q, r := x / n, x % n;
    assert x == q * n + r;
    if r == n - 1 {
      TimesNext(q, n);
      DivisionUnique(x + 1, n, q + 1, 0);
    } else {
      DivisionUnique(x + 1, n, q, r + 1);
    }
  }

  /** A product bounds the quotient, and a quotient the dividend. */
  lemma {:induction false} QuotientBelow(x: nat, n: nat, k: nat)
    requires n > 0
    ensures x / n < k <==> x < k * n
  {
    var q, r := x / n, x % n;
    assert x == q * n + r;
    if q < k {
      AtLeast(k, q + 1, n);
      TimesNext(q, n);
    } else {
      AtLeast(q, k, n);
    }
  }
}
