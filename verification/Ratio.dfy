/** Greatest common divisors, least common multiples and reduced ratios. */
module Ratio {
  import opened Arithmetic

  function Gcd(a: nat, b: nat): (g: nat)
    ensures a + b > 0 ==> g > 0
    decreases b
  {
    if b == 0 then a else Gcd(b, a % b)
  }

  function Lcm(a: nat, b: nat): nat {
    if a == 0 || b == 0 then 0 else (a / Gcd(a, b)) * b
  }

  datatype Period = Period(num: nat, den: nat)

  /** `ratio<num, den>`: in lowest terms. */
  function Reduced(num: nat, den: nat): Period
    requires den > 0
  {
    Period(num / Gcd(num, den), den / Gcd(num, den))
  }

  // ----- arithmetic -----

  lemma {:induction false} Combine(s: int, j: int, t: int, k: int, d: int)
    ensures (s * j + t * k) * d == s * (j * d) + t * (k * d)
  {
  }

  lemma {:induction false} Unroll(a: int, b: int, q: int, r: int, x: int, y: int)
    requires a == b * q + r
    ensures y * a + (x - q * y) * b == x * b + y * r
  {
    assert y * a == y * (b * q) + y * r;
    assert (x - q * y) * b == x * b - q * y * b;
    assert y * (b * q) == q * y * b;
  }

  // ----- Euclid's algorithm -----

  /** The result divides both arguments and is a combination of them. */
  lemma {:induction false} GcdParts(a: nat, b: nat) returns (m: int, n: int, s: int, t: int)
    ensures a == m * Gcd(a, b) && b == n * Gcd(a, b) && s * a + t * b == Gcd(a, b)
    decreases b
  {
    var g := Gcd(a, b);
    if b == 0 {
      m, n, s, t := 1, 0, 1, 0;
    } else {
      var q, r := a / b, a % b;
      var j, k, x, y := GcdParts(b, r);
      hide Gcd;
      m, n, s, t := q * j + k, j, y, x - q * y;
      Unroll(a, b, q, r, x, y);
      Combine(q, j, 1, k, g);
    }
  }

  /** Every common divisor divides it. */
  lemma {:induction false} GcdGreatest(a: nat, b: nat, d: int, j: int, k: int) returns (q: int)
    requires a == j * d && b == k * d
    ensures Gcd(a, b) == q * d
  {
    var _, _, s, t := GcdParts(a, b);
    hide Gcd;
    q := s * j + t * k;
    Combine(s, j, t, k, d);
  }

  /** The quotients by the greatest common divisor are coprime: some combination of them is one. */
  lemma {:induction false} Coprime(a: nat, b: nat) returns (s: int, t: int)
    requires a + b > 0
    ensures var g := Gcd(a, b); a == (a / g) * g && b == (b / g) * g && s * (a / g) + t * (b / g) == 1
  {
    var m, n, x, y := GcdParts(a, b);
    var g := Gcd(a, b);
    hide Gcd;
    QuotientOf(m, g);
    QuotientOf(n, g);
    s, t := x, y;
    Combine(x, m, y, n, g);
    Cancel(x * m + y * n, 1, g);
  }

  /** The least common multiple is a positive multiple of both arguments. */
  lemma {:induction false} LcmParts(a: nat, b: nat) returns (m: int, n: int)
    requires a > 0 && b > 0
    ensures Lcm(a, b) > 0 && Lcm(a, b) == n * a == m * b && a == m * Gcd(a, b) && b == n * Gcd(a, b)
  {
    var _, _ := Coprime(a, b);
    var g := Gcd(a, b);
    hide Gcd;
    m, n := a / g, b / g;
    SwapFactors(m, n, g);
    if m <= 0 { AtLeast(0, m, g); }
    Positive(m, b);
  }

  /** The product of the least common multiple and the greatest common divisor is the product of the arguments. */
  lemma {:induction false} LcmTimesGcd(a: nat, b: nat)
    requires a > 0 && b > 0
    ensures Gcd(a, b) * Lcm(a, b) == a * b
  {
    var m, n := LcmParts(a, b);
    var g := Gcd(a, b);
    hide Gcd, Lcm;
    assert g * (m * b) == (m * g) * b;
  }

  lemma {:induction false} SwapFactors(m: int, n: int, g: int)
    ensures m * (n * g) == n * (m * g)
  {
  }

  /** Lowest terms stand for the same ratio and have no common divisor. */
  lemma {:induction false} ReducedParts(num: nat, den: nat) returns (k: nat, s: int, t: int)
    requires num > 0 && den > 0
    ensures var r := Reduced(num, den);
      && k > 0 && r.num > 0 && r.den > 0 && num == k * r.num && den == k * r.den && s * r.num + t * r.den == 1
  {
    s, t := Coprime(num, den);
    k := Gcd(num, den);
    hide Gcd;
    var r := Reduced(num, den);
    assert r.num * k == num && r.den * k == den;
  }

  // ----- coprimality, by combinations that give one -----

  lemma {:induction false} ReducedInLowestTerms(num: nat, den: nat)
    requires num > 0 && den > 0
    ensures Gcd(Reduced(num, den).num, Reduced(num, den).den) == 1
  {
    var r := Reduced(num, den);
    var _, s, t := ReducedParts(num, den);
    var m, n, _, _ := GcdParts(r.num, r.den);
    var g := Gcd(r.num, r.den);
    hide Gcd, Reduced;
    Combine(s, m, t, n, g);
    UnitFactor(s * m + t * n, g);
  }

  lemma {:induction false} UnitFactor(k: int, g: nat)
    requires k * g == 1
    ensures g == 1
  {
    if k >= 2 { AtLeast(k, 2, g); } else if k <= 0 { AtLeast(0, k, g); }
  }

  lemma {:induction false} CoprimeProduct(a: int, b: int, c: int, s: int, t: int, x: int, y: int)
    returns (i: int, j: int)
    requires s * a + t * c == 1 && x * b + y * c == 1
    ensures i * (a * b) + j * c == 1
  {
    i, j := s * x, s * a * y + t;
    assert (s * x) * (a * b) == (s * a) * (x * b);
    assert (s * a * y) * c == (s * a) * (y * c);
    assert (s * a) * (x * b) + (s * a) * (y * c) == (s * a) * (x * b + y * c);
    assert (s * a * y + t) * c == (s * a * y) * c + t * c;
  }

  /** Divisors of coprime numbers are coprime. */
  lemma {:induction false} CoprimeDivisors(n: nat, d: nat, a: int, g: int, e: int, h: int) returns (s: int, t: int)
    requires n + d > 0 && Gcd(n, d) == 1 && n == a * g && d == e * h
    ensures s * a + t * e == 1
  {
    var _, _, x, y := GcdParts(n, d);
    s, t := x * g, y * h;
    assert (x * g) * a == x * (a * g) && (y * h) * e == y * (e * h);
  }

  /**
    For two ratios in lowest terms, the greatest common divisors of numerators and denominators combine the cross
    products.
   */
  lemma {:induction false} CrossCombination(n: nat, d: nat, n': nat, d': nat) returns (i: int, j: int)
    requires n > 0 && d > 0 && n' > 0 && d' > 0 && Gcd(n, d) == 1 && Gcd(n', d') == 1
    ensures i * n * d' + j * n' * d == Gcd(n, n') * Gcd(d, d')
  {
    var a, a', e, e';
    i, j, a, a', e, e' := CrossQuotients(n, d, n', d');
    var g, h := Gcd(n, n'), Gcd(d, d');
    hide Gcd;
    CrossScale(i, a, g, e', h);
    CrossScale(j, a', g, e, h);
    ScaleOne(i * (a * e'), j * (a' * e), g * h);
  }

  lemma {:induction false} CrossQuotients(n: nat, d: nat, n': nat, d': nat)
    returns (i: int, j: int, a: int, a': int, e: int, e': int)
    requires n > 0 && d > 0 && n' > 0 && d' > 0 && Gcd(n, d) == 1 && Gcd(n', d') == 1
    ensures n == a * Gcd(n, n') && n' == a' * Gcd(n, n') && d == e * Gcd(d, d') && d' == e' * Gcd(d, d')
    ensures i * (a * e') + j * (a' * e) == 1
  {
    var g, h := Gcd(n, n'), Gcd(d, d');
    var s1, t1 := Coprime(n, n');
    var s2, t2 := Coprime(d, d');
    a, a', e, e' := n / g, n' / g, d / h, d' / h;
    var s3, t3 := CoprimeDivisors(n, d, a, g, e, h);
    var s4, t4 := CoprimeDivisors(n', d', a', g, e', h);
    hide Gcd;
    i, j := CrossCoprime(a, a', e, e', s1, t1, s2, t2, s3, t3, s4, t4);
  }

  lemma {:induction false} ScaleOne(x: int, y: int, k: int)
    requires x + y == 1
    ensures x * k + y * k == k
  {
  }

  lemma {:induction false} CrossScale(i: int, a: int, g: int, e: int, h: int)
    ensures i * (a * g) * (e * h) == (i * (a * e)) * (g * h)
  {
    assert i * (a * g) * (e * h) == i * ((a * g) * (e * h));
    assert (a * g) * (e * h) == (a * e) * (g * h);
  }

  lemma {:induction false} CrossCoprime(a: int, a': int, e: int, e': int, s1: int, t1: int, s2: int, t2: int, s3: int,
          t3: int, s4: int, t4: int)
    returns (i: int, j: int)
    requires s1 * a + t1 * a' == 1 && s2 * e + t2 * e' == 1 && s3 * a + t3 * e == 1 && s4 * a' + t4 * e' == 1
    ensures i * (a * e') + j * (a' * e) == 1
  {
    var x, y := CoprimeProduct(a', e, a, t1, s1, t3, s3);
    var x', y' := CoprimeProduct(a', e, e', s4, t4, s2, t2);
    i, j := CoprimeProduct(a, e', a' * e, y, x, y', x');
  }
}
