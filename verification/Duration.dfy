/**
  Durations: tick counts in a period given as a ratio of seconds.  Tick counts are unbounded integers;
  division truncates toward zero, as it does in C++.
 */
module Durations {
  import opened Arithmetic
  import opened Basics
  import opened Ratio

  datatype Duration = Duration(count: int, period: Period)

  predicate ValidPeriod(p: Period) {
    p.num > 0 && p.den > 0
  }

  type Valid = d: Duration | ValidPeriod(d.period) witness Duration(0, Period(1, 1))

  function TruncDiv(a: int, b: int): int
    requires b > 0
  {
    if a >= 0 then a / b else -((-a) / b)
  }

  function Cast(d: Valid, to: Period): Valid
    requires ValidPeriod(to)
  {
    Positive(d.period.den, to.num);
    Duration(TruncDiv(d.count * d.period.num * to.den, d.period.den * to.num), to)
  }

  // ----- the length of a duration, in seconds -----

  ghost function Unit(p: Period): real
    requires ValidPeriod(p)
  {
    p.num as real / p.den as real
  }

  ghost function Value(d: Valid): real {
    d.count as real * Unit(d.period)
  }

  lemma {:induction false} RealTimes(a: int, b: int)
    ensures (a * b) as real == a as real * b as real
  {
  }

  lemma {:induction false} Expand(x: real, y: real, z: real)
    requires y > 0.0 && z > 0.0
    ensures y * z > 0.0 && x / y == (x * z) * (1.0 / (y * z))
  {
    var w := 1.0 / (y * z);
    assert w * (y * z) == 1.0;
    assert ((x * z) * w) * y == x * (w * (y * z));
  }

  lemma {:induction false} WeightOrder(i: int, j: int, w: real)
    requires w > 0.0
    ensures i < j <==> i as real * w < j as real * w
    ensures i == j <==> i as real * w == j as real * w
  {
    if i < j {
      assert (j as real - i as real) * w > 0.0;
    } else if j < i {
      assert (i as real - j as real) * w > 0.0;
    }
  }

  lemma {:induction false} UnitPositive(p: Period)
    requires ValidPeriod(p)
    ensures Unit(p) > 0.0
  {
  }

  lemma {:induction false} Ticks(to: Period, j: int, k: int)
    requires ValidPeriod(to)
    ensures j < k <==> Value(Duration(j, to)) < Value(Duration(k, to))
    ensures j == k <==> Value(Duration(j, to)) == Value(Duration(k, to))
    ensures Value(Duration(j + 1, to)) == Value(Duration(j, to)) + Unit(to)
    ensures Value(Duration(j - 1, to)) == Value(Duration(j, to)) - Unit(to)
  {
    UnitPositive(to);
    WeightOrder(j, k, Unit(to));
  }

  lemma {:induction false} TickSum(to: Period, j: int, k: int)
    requires ValidPeriod(to)
    ensures Value(Duration(j + k, to)) == Value(Duration(j, to)) + Value(Duration(k, to))
    ensures Value(Duration(j - k, to)) == Value(Duration(j, to)) - Value(Duration(k, to))
  {
    var u := Unit(to);
    assert (j as real + k as real) * u == j as real * u + k as real * u;
    assert (j as real - k as real) * u == j as real * u - k as real * u;
  }

  /** The exact number of `to` ticks in `d` is the fraction that `Cast` truncates: `Scaled` over `Scale`. */
  function Scaled(d: Valid, to: Period): int {
    d.count * d.period.num * to.den
  }

  function Scale(d: Valid, to: Period): (s: int)
    requires ValidPeriod(to)
    ensures s > 0
  {
    Positive(d.period.den, to.num);
    d.period.den * to.num
  }

  lemma {:induction false} Weight(d: Valid, to: Period) returns (w: real)
    requires ValidPeriod(to)
    ensures w > 0.0 && Value(d) == Scaled(d, to) as real * w && Unit(to) == Scale(d, to) as real * w
  {
    var c, n, m := d.count as real, d.period.num as real, d.period.den as real;
    var n', m' := to.num as real, to.den as real;
    w := 1.0 / (m * m');
    Expand(n, m, m');
    Expand(n', m', m);
    RealTimes(d.count * d.period.num, to.den);
    RealTimes(d.count, d.period.num);
    RealTimes(d.period.den, to.num);
    assert c * ((n * m') * w) == ((c * n) * m') * w;
  }

  /** Comparing `d` with `k` ticks of another period is a comparison of integers. */
  lemma {:induction false} TickOrder(d: Valid, to: Period, k: int)
    requires ValidPeriod(to)
    ensures Value(Duration(k, to)) < Value(d) <==> k * Scale(d, to) < Scaled(d, to)
    ensures Value(Duration(k, to)) == Value(d) <==> k * Scale(d, to) == Scaled(d, to)
  {
    var w := Weight(d, to);
    RealTimes(k, Scale(d, to));
    assert k as real * (Scale(d, to) as real * w) == (k as real * Scale(d, to) as real) * w;
    hide Value, Unit, Scaled, Scale;
    WeightOrder(k * Scale(d, to), Scaled(d, to), w);
  }

  lemma {:induction false} TruncBetween(a: int, b: int)
    requires b > 0
    ensures a >= 0 ==> TruncDiv(a, b) * b <= a < (TruncDiv(a, b) + 1) * b
    ensures a <= 0 ==> (TruncDiv(a, b) - 1) * b < a <= TruncDiv(a, b) * b
  {
    var q := TruncDiv(a, b);
    if a >= 0 {
      assert a == b * (a / b) + a % b;
    } else {
      assert -a == b * (-a / b) + -a % b;
    }
    assert (q + 1) * b == q * b + b && (q - 1) * b == q * b - b;
  }

  /** Casting truncates toward zero. */
  lemma {:induction false} CastTruncates(d: Valid, to: Period)
    requires ValidPeriod(to)
    ensures var q := Cast(d, to).count;
      && Cast(d, to).period == to
      && (Value(d) >= 0.0 ==> Value(Duration(q, to)) <= Value(d) < Value(Duration(q + 1, to)))
      && (Value(d) <= 0.0 ==> Value(Duration(q - 1, to)) < Value(d) <= Value(Duration(q, to)))
  {
    var q := Cast(d, to).count;
    TruncBetween(Scaled(d, to), Scale(d, to));
    TickOrder(d, to, q);
    TickOrder(d, to, q + 1);
    TickOrder(d, to, q - 1);
    TickOrder(d, to, 0);
    assert Value(Duration(0, to)) == 0.0;
    hide Value;
  }

  // ----- the common period -----

  function CommonPeriod(p: Period, q: Period): Period
    requires ValidPeriod(p) && ValidPeriod(q)
    ensures ValidPeriod(CommonPeriod(p, q))
  {
    CommonValid(p, q);
    Reduced(Gcd(p.num, q.num), Lcm(p.den, q.den))
  }

  lemma {:induction false} CommonParts(p: Period, q: Period) returns (k: nat, a: int, u: int, b: int, v: int)
    requires ValidPeriod(p) && ValidPeriod(q)
    ensures Lcm(p.den, q.den) > 0
    ensures var c := Reduced(Gcd(p.num, q.num), Lcm(p.den, q.den));
      && ValidPeriod(c) && k > 0
      && p.num == a * (k * c.num) && k * c.den == u * p.den
      && q.num == b * (k * c.num) && k * c.den == v * q.den
  {
    var x, y;
    a, b, x, y := GcdParts(p.num, q.num);
    v, u := LcmParts(p.den, q.den);
    k, x, y := ReducedParts(Gcd(p.num, q.num), Lcm(p.den, q.den));
  }

  lemma {:induction false} CommonValid(p: Period, q: Period)
    requires ValidPeriod(p) && ValidPeriod(q)
    ensures Lcm(p.den, q.den) > 0 && ValidPeriod(Reduced(Gcd(p.num, q.num), Lcm(p.den, q.den)))
  {
    var _, _, _, _, _ := CommonParts(p, q);
  }

  lemma {:induction false} Rescale(n: int, m: int, a: int, u: int, k: int, n': int, m': int)
    requires n == a * (k * n') && k * m' == u * m
    ensures n * m' == (a * u) * (m * n')
  {
    assert n * m' == (a * n') * (k * m');
    assert (a * n') * (u * m) == (a * u) * (m * n');
  }

  /** Both periods are whole multiples of their common period. */
  lemma {:induction false} CommonMultiple(p: Period, q: Period) returns (m: int, n: int)
    requires ValidPeriod(p) && ValidPeriod(q)
    ensures var c := CommonPeriod(p, q);
      p.num * c.den == m * (p.den * c.num) && q.num * c.den == n * (q.den * c.num)
  {
    var c := CommonPeriod(p, q);
    var k, a, u, b, v := CommonParts(p, q);
    Rescale(p.num, p.den, a, u, k, c.num, c.den);
    Rescale(q.num, q.den, b, v, k, c.num, c.den);
    m, n := a * u, b * v;
  }

  /** A cast to a period that divides the old one loses nothing. */
  lemma {:induction false} CastExact(d: Valid, c: Period, m: int)
    requires ValidPeriod(c) && d.period.num * c.den == m * (d.period.den * c.num)
    ensures Cast(d, c).count == d.count * m && Value(Cast(d, c)) == Value(d)
  {
    var q := d.count * m;
    assert Scaled(d, c) == d.count * (d.period.num * c.den);
    assert Scaled(d, c) == q * Scale(d, c);
    QuotientOf(q, Scale(d, c));
    QuotientOf(-q, Scale(d, c));
    assert (-q) * Scale(d, c) == -(q * Scale(d, c));
    TickOrder(d, c, q);
  }

  lemma {:induction false} CommonExact(a: Valid, b: Valid)
    ensures var c := CommonPeriod(a.period, b.period); Value(Cast(a, c)) == Value(a) && Value(Cast(b, c)) == Value(b)
  {
    var c := CommonPeriod(a.period, b.period);
    var m, n := CommonMultiple(a.period, b.period);
    CastExact(a, c, m);
    CastExact(b, c, n);
  }

  /** As the `num` and `den` of every ratio type are. */
  ghost predicate InLowestTerms(p: Period) {
    ValidPeriod(p) && Gcd(p.num, p.den) == 1
  }

  lemma {:induction false} SameRatio(n: int, m: int, k: int, n': int, m': int)
    requires m > 0 && k > 0 && n' == k * n && m' == k * m
    ensures m' > 0 && n as real / m as real == n' as real / m' as real
  {
    Positive(k, m);
    RealTimes(k, n);
    RealTimes(k, m);
    var x := n as real / m as real;
    assert x * m as real == n as real;
    assert x * (k as real * m as real) == k as real * (x * m as real);
  }

  lemma {:induction false} CommonPeriodValue(p: Period, q: Period)
    requires ValidPeriod(p) && ValidPeriod(q)
    ensures p.den * q.den > 0
    ensures Unit(CommonPeriod(p, q)) == (Gcd(p.num, q.num) * Gcd(p.den, q.den)) as real / (p.den * q.den) as real
  {
    var g, h, l := Gcd(p.num, q.num), Gcd(p.den, q.den), Lcm(p.den, q.den);
    var c := CommonPeriod(p, q);
    var k := CommonFraction(p, q);
    hide Gcd, Lcm, Reduced, CommonPeriod;
    SameRatio(c.num, c.den, k, g, l);
    SameRatio(g, l, h, g * h, h * l);
  }

  lemma {:induction false} CommonFraction(p: Period, q: Period) returns (k: nat)
    requires ValidPeriod(p) && ValidPeriod(q)
    ensures var g, h, l, c := Gcd(p.num, q.num), Gcd(p.den, q.den), Lcm(p.den, q.den), CommonPeriod(p, q);
      k > 0 && g == k * c.num && l == k * c.den && l > 0 && h > 0 && h * l == p.den * q.den && p.den * q.den > 0
  {
    LcmTimesGcd(p.den, q.den);
    CommonValid(p, q);
    Positive(p.den, q.den);
    var s, t;
    k, s, t := ReducedParts(Gcd(p.num, q.num), Lcm(p.den, q.den));
  }

  lemma {:induction false} AddFractions(i: real, x: real, y: real, j: real, w: real, z: real)
    requires y > 0.0 && z > 0.0
    ensures y * z > 0.0 && ((i * x) * z + (j * w) * y) / (y * z) == i * (x / y) + j * (w / z)
  {
    var a, b := x / y, w / z;
    assert a * y == x && b * z == w;
    assert (i * a + j * b) * (y * z) == (i * (a * y)) * z + (j * (b * z)) * y;
  }

  lemma {:induction false} CrossReal(i: int, n: int, m: int, j: int, n': int, m': int)
    ensures (i * n * m' + j * n' * m) as real
         == (i as real * n as real) * m' as real + (j as real * n' as real) * m as real
  {
    RealTimes(i * n, m');
    RealTimes(i, n);
    RealTimes(j * n', m);
    RealTimes(j, n');
  }

  lemma {:induction false} CrossFractions(i: int, n: int, m: int, j: int, n': int, m': int, sum: int)
    requires m > 0 && m' > 0 && i * n * m' + j * n' * m == sum
    ensures m * m' > 0
    ensures sum as real / (m * m') as real
      == i as real * (n as real / m as real) + j as real * (n' as real / m' as real)
  {
    Positive(m, m');
    RealTimes(m, m');
    CrossReal(i, n, m, j, n', m');
    var a, b, c, d, e, f := i as real, n as real, m as real, j as real, n' as real, m' as real;
    AddFractions(a, b, c, d, e, f);
    assert sum as real == (a * b) * f + (d * e) * c;
  }

  /** The common period is a combination of two periods in lowest terms. */
  lemma {:induction false} CommonCombination(p: Period, q: Period) returns (i: int, j: int)
    requires InLowestTerms(p) && InLowestTerms(q)
    ensures Unit(CommonPeriod(p, q)) == i as real * Unit(p) + j as real * Unit(q)
  {
    CommonPeriodValue(p, q);
    i, j := CrossCombination(p.num, p.den, q.num, q.den);
    hide Gcd, CommonPeriod;
    CrossFractions(i, p.num, p.den, j, q.num, q.den, Gcd(p.num, q.num) * Gcd(p.den, q.den));
  }

  lemma {:induction false} AtLeastOnce(v: real, u: real, i: int, a: int, j: int, b: int)
    requires u > 0.0 && v > 0.0 && v == i as real * (a as real * u) + j as real * (b as real * u)
    ensures u <= v
  {
    RealTimes(i, a);
    RealTimes(j, b);
    var n := i * a + j * b;
    assert n as real == i as real * a as real + j as real * b as real;
    assert n as real * u == v;
    WeightOrder(0, n, u);
    WeightOrder(n, 1, u);
  }

  /** No longer period measures both: the common period is the greatest that does. */
  lemma {:induction false} CommonPeriodGreatest(p: Period, q: Period, u: real, a: int, b: int)
    requires InLowestTerms(p) && InLowestTerms(q)
    requires u > 0.0 && Unit(p) == a as real * u && Unit(q) == b as real * u
    ensures u <= Unit(CommonPeriod(p, q))
  {
    var i, j := CommonCombination(p, q);
    UnitPositive(CommonPeriod(p, q));
    hide Unit, CommonPeriod;
    AtLeastOnce(Unit(CommonPeriod(p, q)), u, i, a, j, b);
  }

  // ----- arithmetic and comparison across periods -----

  function Plus(a: Valid, b: Valid): Valid {
    var c := CommonPeriod(a.period, b.period);
    Duration(Cast(a, c).count + Cast(b, c).count, c)
  }

  function Minus(a: Valid, b: Valid): Valid {
    var c := CommonPeriod(a.period, b.period);
    Duration(Cast(a, c).count - Cast(b, c).count, c)
  }

  predicate Equal(a: Valid, b: Valid) {
    var c := CommonPeriod(a.period, b.period);
    Cast(a, c).count == Cast(b, c).count
  }

  predicate Less(a: Valid, b: Valid) {
    var c := CommonPeriod(a.period, b.period);
    Cast(a, c).count < Cast(b, c).count
  }

  /** Comparison is exact, whatever the two periods are. */
  lemma {:induction false} ComparesValues(a: Valid, b: Valid)
    ensures Less(a, b) <==> Value(a) < Value(b)
    ensures Equal(a, b) <==> Value(a) == Value(b)
  {
    var c := CommonPeriod(a.period, b.period);
    CommonExact(a, b);
    var x, y := Cast(a, c), Cast(b, c);
    assert x == Duration(x.count, c) && y == Duration(y.count, c);
    hide Value, Cast, CommonPeriod;
    Ticks(c, x.count, y.count);
  }

  /** Sums and differences are exact, whatever the two periods are. */
  lemma {:induction false} AddsValues(a: Valid, b: Valid)
    ensures Value(Plus(a, b)) == Value(a) + Value(b)
    ensures Value(Minus(a, b)) == Value(a) - Value(b)
    ensures Plus(a, b).period == Minus(a, b).period == CommonPeriod(a.period, b.period)
  {
    var c := CommonPeriod(a.period, b.period);
    CommonExact(a, b);
    var x, y := Cast(a, c), Cast(b, c);
    assert x == Duration(x.count, c) && y == Duration(y.count, c);
    hide Value, Cast, CommonPeriod;
    TickSum(c, x.count, y.count);
  }

  /** Durations of mixed periods are ordered consistently, although each pair is compared in a period of its own. */
  lemma {:induction false} LessIsStrictWeakOrder()
    ensures StrictWeakOrder(Less)
  {
    forall a: Valid, b: Valid ensures Less(a, b) <==> Value(a) < Value(b) {
      ComparesValues(a, b);
    }
    hide Less, Value;
  }

  // ----- rounding -----

  function Tick(to: Period): Valid
    requires ValidPeriod(to)
  {
    Duration(1, to)
  }

  function Floor(d: Valid, to: Period): Valid
    requires ValidPeriod(to)
  {
    if Less(d, Cast(d, to)) then Cast(Minus(Cast(d, to), Tick(to)), to) else Cast(d, to)
  }

  function Ceil(d: Valid, to: Period): Valid
    requires ValidPeriod(to)
  {
    if Less(Cast(d, to), d) then Cast(Plus(Cast(d, to), Tick(to)), to) else Cast(d, to)
  }

  function Round(d: Valid, to: Period): Valid
    requires ValidPeriod(to)
  {
    var lower := Floor(d, to);
    var upper := Cast(Plus(lower, Tick(to)), to);
    var lowerDistance := Minus(d, lower);
    var upperDistance := Minus(upper, d);
    if Less(lowerDistance, upperDistance) then lower
    else if Less(upperDistance, lowerDistance) then upper
    else if lower.count % 2 == 0 then lower else upper
  }

  /** Casting what is a whole number of ticks gives that number. */
  lemma {:induction false} CastTicks(d: Valid, to: Period, k: int)
    requires ValidPeriod(to) && Value(d) == Value(Duration(k, to))
    ensures Cast(d, to) == Duration(k, to)
  {
    TickOrder(d, to, k);
    QuotientOf(k, Scale(d, to));
    QuotientOf(-k, Scale(d, to));
    assert (-k) * Scale(d, to) == -(k * Scale(d, to));
  }

  /** Adding or subtracting one tick changes the count by one. */
  lemma {:induction false} StepTick(d: Valid)
    ensures Cast(Plus(d, Tick(d.period)), d.period) == Duration(d.count + 1, d.period)
    ensures Cast(Minus(d, Tick(d.period)), d.period) == Duration(d.count - 1, d.period)
  {
    var to := d.period;
    AddsValues(d, Tick(to));
    Ticks(to, d.count, 0);
    assert Value(Tick(to)) == Unit(to);
    hide Value, Unit, Plus, Minus;
    CastTicks(Plus(d, Tick(to)), to, d.count + 1);
    CastTicks(Minus(d, Tick(to)), to, d.count - 1);
  }

  /** `Floor` is the last tick not after `d`. */
  lemma {:induction false} FloorGreatest(d: Valid, to: Period, k: int)
    requires ValidPeriod(to)
    ensures Floor(d, to).period == to && Value(Floor(d, to)) <= Value(d) < Value(Floor(d, to)) + Unit(to)
    ensures Value(Duration(k, to)) <= Value(d) <==> k <= Floor(d, to).count
  {
    var t := Cast(d, to);
    CastTruncates(d, to);
    ComparesValues(d, t);
    StepTick(t);
    Ticks(to, t.count, 0);
    Ticks(to, t.count - 1, 0);
    var f := Floor(d, to);
    assert f == t || f == Duration(t.count - 1, to);
    hide Value, Unit, Cast, Plus, Minus, Less;
    Ticks(to, f.count, k);
    Ticks(to, f.count + 1, k);
  }

  /** `Ceil` is the first tick not before `d`. */
  lemma {:induction false} CeilLeast(d: Valid, to: Period, k: int)
    requires ValidPeriod(to)
    ensures Ceil(d, to).period == to && Value(Ceil(d, to)) - Unit(to) < Value(d) <= Value(Ceil(d, to))
    ensures Value(d) <= Value(Duration(k, to)) <==> Ceil(d, to).count <= k
  {
    var t := Cast(d, to);
    CastTruncates(d, to);
    ComparesValues(t, d);
    StepTick(t);
    Ticks(to, t.count, 0);
    Ticks(to, t.count + 1, 0);
    var f := Ceil(d, to);
    assert f == t || f == Duration(t.count + 1, to);
    hide Value, Unit, Cast, Plus, Minus, Less;
    Ticks(to, k, f.count);
    Ticks(to, k, f.count - 1);
  }

  function Abs(x: real): real {
    if x < 0.0 then -x else x
  }

  /** Which of the two neighbouring ticks `Round` takes, in seconds. */
  lemma {:induction false} RoundChoice(d: Valid, to: Period)
    requires ValidPeriod(to)
    ensures var f := Floor(d, to); var middle := Value(f) + Unit(to) / 2.0;
      && f.period == to
      && (Value(d) < middle ==> Round(d, to) == f)
      && (Value(d) > middle ==> Round(d, to) == Duration(f.count + 1, to))
      && (Value(d) == middle ==> Round(d, to) == Duration(if f.count % 2 == 0 then f.count else f.count + 1, to))
  {
    var f := Floor(d, to);
    FloorGreatest(d, to, 0);
    StepTick(f);
    var u := Duration(f.count + 1, to);
    Ticks(to, f.count, 0);
    AddsValues(d, f);
    AddsValues(u, d);
    var x, y := Minus(d, f), Minus(u, d);
    ComparesValues(x, y);
    ComparesValues(y, x);
    hide Value, Unit, Floor, Cast, Plus, Minus, Less;
  }

  /** `Round` is the nearest tick, and of two equally near ones the even. */
  lemma {:induction false} RoundNearest(d: Valid, to: Period, k: int)
    requires ValidPeriod(to)
    ensures var r := Round(d, to);
      && r.period == to
      && Abs(Value(d) - Value(r)) <= Abs(Value(d) - Value(Duration(k, to)))
      && (k != r.count && Abs(Value(d) - Value(r)) == Abs(Value(d) - Value(Duration(k, to))) ==> r.count % 2 == 0)
  {
    var f := Floor(d, to);
    RoundChoice(d, to);
    FloorGreatest(d, to, 0);
    UnitPositive(to);
    Ticks(to, f.count, 0);
    hide Value, Unit, Floor, Round;
    Ticks(to, k, f.count);
    Ticks(to, f.count + 1, k);
    if k < f.count - 1 { Ticks(to, k, f.count - 1); }
  }
}
