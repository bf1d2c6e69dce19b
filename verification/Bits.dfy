/**
  The halving and smearing algorithms on unsigned integers, for every width that is a power of two.
  Words are natural numbers below two to the width.
 */
module Bits {
  import opened Arithmetic

  function Pow2(k: nat): (p: nat)
    ensures p > 0
  {
    if k == 0 then 1 else 2 * Pow2(k - 1)
  }

  /** The number of bits of a width: 1, 2, 4, 8, ... */
  predicate PowerOfTwo(n: nat) {
    n == 1 || (n > 1 && n % 2 == 0 && PowerOfTwo(n / 2))
  }

  // ----- the operators of the language -----

  /** `x >> i` */
  function Shr(x: nat, i: nat): nat
    decreases i
  {
    if i == 0 then x else Shr(x / 2, i - 1)
  }

  /** `x | y` */
  function Or(x: nat, y: nat): nat {
    if x == 0 && y == 0 then 0 else 2 * Or(x / 2, y / 2) + if x % 2 == 1 || y % 2 == 1 then 1 else 0
  }

  /** `x & y` */
  function And(x: nat, y: nat): nat {
    if x == 0 || y == 0 then 0 else 2 * And(x / 2, y / 2) + if x % 2 == 1 && y % 2 == 1 then 1 else 0
  }

  predicate Bit(x: nat, j: nat)
    decreases j
  {
    if j == 0 then x % 2 == 1 else Bit(x / 2, j - 1)
  }

  // ----- bit length and trailing zeros -----

  /** One more than the position of the highest set bit; zero for zero. */
  function Length(x: nat): nat {
    if x == 0 then 0 else 1 + Length(x / 2)
  }

  /** The position of the lowest set bit. */
  function Trailing(x: nat): nat
    requires x > 0
  {
    if x % 2 == 1 then 0 else 1 + Trailing(x / 2)
  }

  lemma {:induction false} Doubled(p: int, q: int)
    ensures (2 * p) * q == 2 * (p * q)
  {
  }

  lemma {:induction false} LengthBetween(x: nat)
    requires x > 0
    ensures Length(x) > 0 && Pow2(Length(x) - 1) <= x < Pow2(Length(x))
    decreases x
  {
    if x > 1 {
      LengthBetween(x / 2);
    }
  }

  lemma {:induction false} Pow2Grows(j: nat, k: nat)
    requires j <= k
    ensures Pow2(j) <= Pow2(k) && (j < k ==> 2 * Pow2(j) <= Pow2(k))
    decreases k
  {
    if j < k {
      Pow2Grows(j, k - 1);
    }
  }

  /** Fitting into `k` bits. */
  lemma {:induction false} LengthFits(x: nat, k: nat)
    ensures Length(x) <= k <==> x < Pow2(k)
  {
    if x > 0 {
      LengthBetween(x);
      if Length(x) <= k { Pow2Grows(Length(x), k); } else { Pow2Grows(k, Length(x) - 1); }
    }
  }

  lemma {:induction false} ShrLength(x: nat, i: nat)
    ensures Length(Shr(x, i)) == if Length(x) > i then Length(x) - i else 0
    decreases i
  {
    if i > 0 {
      ShrLength(x / 2, i - 1);
    }
  }

  lemma {:induction false} LengthZero(x: nat)
    ensures Length(x) == 0 <==> x == 0
  {
  }

  /** The exact power of two that divides `x`. */
  lemma {:induction false} TrailingDivides(x: nat) returns (odd: nat)
    requires x > 0
    ensures x == Pow2(Trailing(x)) * odd && odd % 2 == 1
    decreases x
  {
    if x % 2 == 1 {
      odd := x;
    } else {
      odd := TrailingDivides(x / 2);
      Doubled(Pow2(Trailing(x / 2)), odd);
    }
  }

  lemma {:induction false} ShrTrailing(x: nat, i: nat)
    requires x > 0 && i <= Trailing(x)
    ensures Shr(x, i) > 0 && Trailing(Shr(x, i)) == Trailing(x) - i
    decreases i
  {
    if i > 0 {
      ShrTrailing(x / 2, i - 1);
    }
  }

  lemma {:induction false} LowBitsZero(x: nat, i: nat)
    requires x > 0
    ensures And(x, Pow2(i) - 1) == 0 <==> i <= Trailing(x)
    decreases i
  {
    if i > 0 && x % 2 == 0 {
      assert (Pow2(i) - 1) / 2 == Pow2(i - 1) - 1;
      LowBitsZero(x / 2, i - 1);
    }
  }

  lemma {:induction false} TrailingBelowLength(x: nat)
    requires x > 0
    ensures Trailing(x) < Length(x)
    decreases x
  {
    if x % 2 == 0 {
      TrailingBelowLength(x / 2);
    }
  }

  // ----- counting zeros by halving -----

  method CountLeadingZeros(width: nat, v: nat) returns (count: nat)
    requires PowerOfTwo(width) && v < Pow2(width)
    ensures count + Length(v) == width
  {
    if v == 0 {
      return width;
    }
    count := 0;
    var x: nat, i: nat := v, width / 2;
    ghost var window: nat := width;
    LengthFits(v, width);
    while i > 0
      invariant PowerOfTwo(window) && i == window / 2
      invariant 0 < Length(x) <= window && Length(v) + count + window == width + Length(x)
      decreases i
    {
      ShrLength(x, i);
      LengthZero(Shr(x, i));
      if Shr(x, i) == 0 {
        count := count + i;
      } else {
        x := Shr(x, i);
      }
      window := i;
      i := i / 2;
    }
  }

  method CountTrailingZeros(width: nat, v: nat) returns (count: nat)
    requires PowerOfTwo(width) && v < Pow2(width)
    ensures v == 0 ==> count == width
    ensures v > 0 ==> count == Trailing(v)
  {
    if v == 0 {
      return width;
    }
    count := 0;
    var x: nat, i: nat := v, width / 2;
    ghost var window: nat := width;
    LengthFits(v, width);
    TrailingBelowLength(v);
    while i > 0
      invariant PowerOfTwo(window) && i == window / 2
      invariant x > 0 && Trailing(x) < window && Trailing(v) == count + Trailing(x)
      decreases i
    {
      LowBitsZero(x, i);
      if And(x, Pow2(i) - 1) == 0 {
        ShrTrailing(x, i);
        count := count + i;
        x := Shr(x, i);
      }
      window := i;
      i := i / 2;
    }
  }

  method BitWidth(width: nat, v: nat) returns (n: nat)
    requires PowerOfTwo(width) && v < Pow2(width)
    ensures n == Length(v)
  {
    if v == 0 {
      return 0;
    }
    var zeros := CountLeadingZeros(width, v);
    n := width - zeros;
  }

  method Log2Floor(width: nat, v: nat) returns (n: nat)
    requires PowerOfTwo(width) && v < Pow2(width)
    ensures v == 0 ==> n == 0
    ensures v > 0 ==> n + 1 == Length(v) && Pow2(n) <= v < Pow2(n + 1)
  {
    if v == 0 {
      return 0;
    }
    var bits := BitWidth(width, v);
    LengthBetween(v);
    n := bits - 1;
  }

  // ----- smearing -----

  lemma {:induction false} OrBit(x: nat, y: nat, j: nat)
    ensures Bit(Or(x, y), j) <==> Bit(x, j) || Bit(y, j)
    decreases j
  {
    if j > 0 {
      OrBit(x / 2, y / 2, j - 1);
      if x == 0 && y == 0 { ZeroBit(j); }
    }
  }

  lemma {:induction false} ZeroBit(j: nat)
    ensures !Bit(0, j)
    decreases j
  {
    if j > 0 { ZeroBit(j - 1); }
  }

  lemma {:induction false} AndBit(x: nat, y: nat, j: nat)
    ensures Bit(And(x, y), j) <==> Bit(x, j) && Bit(y, j)
    decreases j
  {
    if x == 0 || y == 0 {
      ZeroBit(j);
    } else if j > 0 {
      AndBit(x / 2, y / 2, j - 1);
    }
  }

  /** A shift divides by a power of two, rounding down, and brings bit `i` to the bottom. */
  lemma {:induction false} ShrDivides(x: nat, i: nat)
    ensures Pow2(i) * Shr(x, i) <= x < Pow2(i) * (Shr(x, i) + 1)
    ensures Bit(x, i) <==> Shr(x, i) % 2 == 1
    decreases i
  {
    if i > 0 {
      ShrDivides(x / 2, i - 1);
      Doubled(Pow2(i - 1), Shr(x, i));
      Doubled(Pow2(i - 1), Shr(x, i) + 1);
    }
  }

  lemma {:induction false} ShrBit(x: nat, i: nat, j: nat)
    ensures Bit(Shr(x, i), j) <==> Bit(x, i + j)
    decreases i
  {
    if i > 0 { ShrBit(x / 2, i - 1, j); }
  }

  lemma {:induction false} OnesBit(m: nat, j: nat)
    ensures Bit(Pow2(m) - 1, j) <==> j < m
    decreases j
  {
    if m > 0 {
      assert (Pow2(m) - 1) / 2 == Pow2(m - 1) - 1;
      if j > 0 { OnesBit(m - 1, j - 1); }
    } else {
      ZeroBit(j);
    }
  }

  /** The bit below the length is set, and none above it is. */
  lemma {:induction false} TopBit(x: nat, j: nat)
    ensures j >= Length(x) ==> !Bit(x, j)
    ensures x > 0 ==> Bit(x, Length(x) - 1)
    decreases x
  {
    if x == 0 {
      ZeroBit(j);
    } else if x == 1 {
      if j > 0 { ZeroBit(j - 1); }
    } else {
      TopBit(x / 2, if j > 0 then j - 1 else 0);
    }
  }

  /** Words with the same bits are equal. */
  lemma {:induction false} SameBits(x: nat, y: nat)
    requires forall j: nat :: Bit(x, j) <==> Bit(y, j)
    ensures x == y
    decreases x + y
  {
    assert Bit(x, 0) <==> Bit(y, 0);
    if x + y > 0 {
      forall j: nat ensures Bit(x / 2, j) <==> Bit(y / 2, j) {
        assert Bit(x, j + 1) <==> Bit(y, j + 1);
      }
      SameBits(x / 2, y / 2);
    }
  }

  /** Bit `j` is set when one of the `n` bits of `v` from `j` upwards is. */
  ghost predicate SmearedAt(v: nat, n: nat, x: nat, j: nat) {
    Bit(x, j) <==> exists k: nat :: j <= k < j + n && Bit(v, k)
  }

  lemma {:induction false} SmearStep(v: nat, n: nat, x: nat, j: nat)
    requires SmearedAt(v, n, x, j) && SmearedAt(v, n, x, n + j)
    ensures SmearedAt(v, n * 2, Or(x, Shr(x, n)), j)
  {
    OrBit(x, Shr(x, n), j);
    ShrBit(x, n, j);
    if Bit(x, j) {
      var k: nat :| j <= k < j + n && Bit(v, k);
      assert k < j + 2 * n;
    }
    if Bit(x, n + j) {
      var k: nat :| n + j <= k < n + j + n && Bit(v, k);
      assert j <= k < j + 2 * n;
    }
    if k: nat :| j <= k < j + 2 * n && Bit(v, k) {
      assert k < j + n || n + j <= k;
    }
  }

  /** Once the shifts cover the whole length, every bit up to the highest is set. */
  lemma {:induction false} SmearedAll(v: nat, n: nat, x: nat)
    requires n >= Length(v) && forall j: nat :: SmearedAt(v, n, x, j)
    ensures x == Pow2(Length(v)) - 1
  {
    forall j: nat ensures Bit(x, j) <==> Bit(Pow2(Length(v)) - 1, j) {
      OnesBit(Length(v), j);
      assert SmearedAt(v, n, x, j);
      if j < Length(v) {
        TopBit(v, j);
        assert j <= Length(v) - 1 < j + n;
      }
      forall k: nat | j <= k && Bit(v, k) ensures k < Length(v) { TopBit(v, k); }
    }
    SameBits(x, Pow2(Length(v)) - 1);
  }

  /** The loop shared by both searches for a power of two: all bits up to the highest set one become set. */
  method Smear(width: nat, v: nat) returns (x: nat)
    requires PowerOfTwo(width) && v < Pow2(width)
    ensures x == Pow2(Length(v)) - 1
  {
    x := v;
    var i: nat := 1;
    forall j: nat ensures SmearedAt(v, 1, v, j) {
      if Bit(v, j) { assert j <= j < j + 1; }
    }
    while i < width
      invariant i > 0 && forall j: nat :: SmearedAt(v, i, x, j)
      decreases width - i
    {
      forall j: nat ensures SmearedAt(v, i * 2, Or(x, Shr(x, i)), j) {
        SmearStep(v, i, x, j);
      }
      x := Or(x, Shr(x, i));
      i := i * 2;
    }
    LengthFits(v, width);
    SmearedAll(v, i, x);
  }

  lemma {:induction false} OnesHalf(m: nat)
    requires m > 0
    ensures Shr(Pow2(m) - 1, 1) == Pow2(m - 1) - 1
  {
  }

  /** The greatest power of two not above `v`; zero for zero. */
  method PreviousPowerOfTwo(width: nat, v: nat) returns (p: nat)
    requires PowerOfTwo(width) && v < Pow2(width)
    ensures v == 0 ==> p == 0
    ensures v > 0 ==> p == Pow2(Length(v) - 1) && p <= v < 2 * p
  {
    if v == 0 {
      return 0;
    }
    var x := Smear(width, v);
    LengthBetween(v);
    OnesHalf(Length(v));
    p := x - Shr(x, 1);
  }

  /** The least power of two not below `v`, exactly when it fits the width; otherwise the sum wraps to zero. */
  method NextPowerOfTwo(width: nat, v: nat) returns (p: nat)
    requires PowerOfTwo(width) && v < Pow2(width)
    ensures v <= Pow2(width - 1) ==> IsLeastPower(p, v)
    ensures v > Pow2(width - 1) ==> p == 0
  {
    if v == 0 {
      LeastPower(0);
      return 1;
    }
    var x := Smear(width, v - 1);
    LeastPower(v - 1);
    LengthFits(v - 1, width - 1);
    LengthFits(v - 1, width);
    hide Length, IsLeastPower;
    WrapPow(Length(v - 1), width);
    p := (x + 1) % Pow2(width);
  }

  lemma {:induction false} WrapPow(k: nat, width: nat)
    requires k <= width
    ensures Pow2(k) % Pow2(width) == if k < width then Pow2(k) else 0
  {
    Pow2Grows(k, width);
    Remainder(Pow2(k), Pow2(width));
  }

  ghost predicate IsLeastPower(p: nat, v: nat) {
    (exists k: nat :: p == Pow2(k)) && v <= p && forall k: nat :: v <= Pow2(k) ==> p <= Pow2(k)
  }

  lemma {:induction false} LeastPower(m: nat)
    ensures IsLeastPower(Pow2(Length(m)), m + 1) && (m == 0 ==> IsLeastPower(1, 0))
  {
    LengthFits(m, Length(m));
    forall k: nat | m + 1 <= Pow2(k) ensures Pow2(Length(m)) <= Pow2(k) {
      LengthFits(m, k);
      Pow2Grows(Length(m), k);
    }
    assert Pow2(0) == 1;
  }

  // ----- the power-of-two test -----

  predicate IsPowerOfTwo(v: int) {
    v > 0 && And(v, v - 1) == 0
  }

  lemma {:induction false} AndSame(x: nat)
    ensures And(x, x) == x
    decreases x
  {
    if x > 0 { AndSame(x / 2); }
  }

  lemma {:induction false} ClearLowest(v: nat)
    requires v > 0
    ensures And(v, v - 1) == 0 <==> v == Pow2(Length(v) - 1)
    decreases v
  {
    if v % 2 == 1 {
      assert (v - 1) / 2 == v / 2;
      AndSame(v / 2);
      if v > 1 { LengthZero(v / 2); }
    } else {
      assert (v - 1) / 2 == v / 2 - 1;
      ClearLowest(v / 2);
    }
  }

  lemma {:induction false} PowerLength(k: nat)
    ensures Length(Pow2(k)) == k + 1
    decreases k
  {
    if k > 0 { PowerLength(k - 1); }
  }

  /** The test accepts exactly the powers of two. */
  lemma {:induction false} IsPowerOfTwoIff(v: int)
    ensures IsPowerOfTwo(v) <==> exists k: nat :: v == Pow2(k)
  {
    if v > 0 {
      ClearLowest(v);
      if k: nat :| v == Pow2(k) { PowerLength(k); }
    }
  }
}
