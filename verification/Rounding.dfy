/**
 Correct rounding of IEEE 754 section 4.3.1 (roundTiesToEven), on exact dyadic
 values, and the arithmetic operations defined by it (section 5.4.1).
 */
module Rounding {
  import opened Powers
  import opened Float64

  /** The integer nearest to n/d, the even one of two equally near. */
  function HalfEven(n: nat, d: nat): nat
    requires d > 0
  {
    if 2 * (n % d) < d || (2 * (n % d) == d && (n / d) % 2 == 0) then n / d else n / d + 1
  }

  /** The value of a non-negative pattern, its exponent field left unbounded. */
  function PatternUnits(b: nat): nat {
    Value(b / HIDDEN, b % HIDDEN)
  }

  /**
   The pattern nearest to n / 2^k units, ties to an even significand. Below 2^53
   units patterns are consecutive integers; above, halving a value takes one off
   its exponent field.
   */
  function Nearest(n: nat, k: nat): nat
    decreases n / Pow2(k)
  {
    if n < 2 * HIDDEN * Pow2(k) then HalfEven(n, Pow2(k))
    else
      HalvingDescends(n, k);
      HIDDEN + Nearest(n, k + 1)
  }

  lemma HalvingDescends(n: nat, k: nat)
    requires n >= 2 * HIDDEN * Pow2(k)
    ensures n / Pow2(k + 1) < n / Pow2(k)
  {
    var d := Pow2(k);
    var q := n / d;
    DivisionLaw(n, d);
    DivisionLaw(n, 2 * d);
    if n / (2 * d) >= q {
      MulMonotone(q, n / (2 * d), 2 * d);
      MulMonotone(1, q, d);
    }
  }

  lemma PatternFields(b: nat)
    ensures b < 2 * HIDDEN ==> PatternUnits(b) == b
    ensures b < UVINF ==> Finite(b) && !Neg(b) && Units(b) == PatternUnits(b)
  {
    DivisionLaw(b, HIDDEN);
  }

  /** One more in the exponent field doubles the value. */
  lemma PatternDoubles(b: nat)
    requires b >= HIDDEN
    ensures PatternUnits(HIDDEN + b) == 2 * PatternUnits(b)
  {
    var (e, f) := (b / HIDDEN, b % HIDDEN);
    DivisionUnique(HIDDEN + b, HIDDEN, e + 1, f);
    MulAssoc(2, HIDDEN + f, Pow2(e - 1));
  }

  lemma PatternMonotone(a: nat, b: nat)
    ensures a < b <==> PatternUnits(a) < PatternUnits(b)
  {
    if a < b {
      ValueMonotone(a / HIDDEN, a % HIDDEN, b / HIDDEN, b % HIDDEN);
    } else if b < a {
      ValueMonotone(b / HIDDEN, b % HIDDEN, a / HIDDEN, a % HIDDEN);
    }
  }

  lemma HalfEvenExact(q: nat, d: nat)
    requires d > 0
    ensures HalfEven(q * d, d) == q
  {
    DivisionUnique(q * d, d, q, 0);
  }

  lemma HalfEvenScale(n: nat, d: nat)
    requires d > 0
    ensures HalfEven(2 * n, 2 * d) == HalfEven(n, d)
  {
    DivisionLaw(n, d);
    MulAssoc(n / d, 2, d);
    DivisionUnique(2 * n, 2 * d, n / d, 2 * (n % d));
  }

  /** Every pattern is its own rounding. */
  lemma {:induction false} NearestExact(b: nat, k: nat)
    ensures Nearest(PatternUnits(b) * Pow2(k), k) == b
  {
    var n := PatternUnits(b) * Pow2(k);
    PatternFields(b);
    if b < 2 * HIDDEN {
      MulStrict(b, 2 * HIDDEN, Pow2(k));
      HalfEvenExact(b, Pow2(k));
    } else {
      PatternDoubles(b - HIDDEN);
      PatternFields(HIDDEN);
      PatternMonotone(b - HIDDEN, HIDDEN);
      MulMonotone(2 * HIDDEN, PatternUnits(b), Pow2(k));
      MulAssoc(PatternUnits(b - HIDDEN), 2, Pow2(k));
      NearestExact(b - HIDDEN, k + 1);
    }
  }

  /** Rounding depends on the value n / 2^k alone. */
  lemma {:induction false} NearestScale(n: nat, k: nat, j: nat)
    ensures Nearest(n * Pow2(j), k + j) == Nearest(n, k)
  {
    if j > 0 {
      NearestScale(n, k, j - 1);
      NearestDouble(n * Pow2(j - 1), k + j - 1);
      MulAssoc(n, Pow2(j - 1), 2);
    }
  }

  lemma {:induction false} NearestDouble(n: nat, k: nat)
    ensures Nearest(2 * n, k + 1) == Nearest(n, k)
    decreases n / Pow2(k)
  {
    MulAssoc(2 * HIDDEN, 2, Pow2(k));
    if n < 2 * HIDDEN * Pow2(k) {
      HalfEvenScale(n, Pow2(k));
    } else {
      HalvingDescends(n, k);
      NearestDouble(n, k + 1);
    }
  }

  lemma DoubleIsPattern(h: nat)
    requires PatternUnits(Nearest(h, 0)) == h
    ensures PatternUnits(Nearest(2 * h, 0)) == 2 * h
  {
    var b := Nearest(h, 0);
    PatternFields(b);
    if 2 * h < 2 * HIDDEN {
      HalfEvenExact(2 * h, 1);
      PatternFields(2 * h);
    } else {
      PatternDoubles(b);
      NearestDouble(h, 0);
    }
  }

  /** A 53-bit multiple of a power of two is a pattern's value. */
  lemma {:induction false} NearestOfMultiple(m: nat, g: nat)
    requires m < 2 * HIDDEN
    ensures PatternUnits(Nearest(m * Pow2(g), 0)) == m * Pow2(g)
  {
    hide PatternUnits, Nearest;
    if g == 0 {
      SmallIsPattern(m);
    } else {
      NearestOfMultiple(m, g - 1);
      DoubleIsPattern(m * Pow2(g - 1));
      MulAssoc(m, 2, Pow2(g - 1));
      assert m * Pow2(g) == 2 * (m * Pow2(g - 1));
    }
  }

  lemma SmallIsPattern(m: nat)
    requires m < 2 * HIDDEN
    ensures PatternUnits(Nearest(m, 0)) == m
  {
    HalfEvenExact(m, 1);
    PatternFields(m);
  }

  function Dist(a: int, b: int): nat {
    if a <= b then b - a else a - b
  }

  /** HalfEven is at least as near as any integer, and even when another is as near. */
  lemma HalfEvenClosest(n: nat, d: nat, w: nat)
    requires d > 0
    ensures
      var q := HalfEven(n, d);
      && Dist(n, q * d) <= Dist(n, w * d)
      && (w != q && Dist(n, q * d) == Dist(n, w * d) ==> q % 2 == 0)
  {
    DivisionLaw(n, d);
    var t := n / d;
    assert (t + 1) * d == t * d + d;
    if w < t {
      MulMonotone(w, t - 1, d);
      assert (t - 1) * d == t * d - d;
    } else if w > t + 1 {
      MulMonotone(t + 2, w, d);
      assert (t + 2) * d == t * d + 2 * d;
    }
  }

  lemma HalfEvenAtMost(n: nat, d: nat, m: nat)
    requires d > 0 && n <= m * d
    ensures HalfEven(n, d) <= m
  {
    DivisionLaw(n, d);
    if n / d > m {
      MulMonotone(m + 1, n / d, d);
    }
  }

  lemma HalfEvenAtLeast(n: nat, d: nat, m: nat)
    requires d > 0 && n >= m * d
    ensures HalfEven(n, d) >= m
  {
    DivisionLaw(n, d);
    if n / d < m {
      MulMonotone(n / d + 1, m, d);
    }
  }

  lemma {:induction false} NearestBound(n: nat, k: nat)
    ensures n >= HIDDEN * Pow2(k) ==> Nearest(n, k) >= HIDDEN
    ensures n < 2 * HIDDEN * Pow2(k) ==> Nearest(n, k) <= 2 * HIDDEN
  {
    if n < 2 * HIDDEN * Pow2(k) {
      if n >= HIDDEN * Pow2(k) {
        HalfEvenAtLeast(n, Pow2(k), HIDDEN);
      }
      HalfEvenAtMost(n, Pow2(k), 2 * HIDDEN);
    }
  }

  /** Pattern b is as near to n / 2^k as w is, and even if w is just as near. */
  ghost predicate AsNear(n: nat, k: nat, b: nat, w: nat) {
    var (d, d') := (Dist(n, PatternUnits(b) * Pow2(k)), Dist(n, PatternUnits(w) * Pow2(k)));
    d <= d' && (w != b && d == d' ==> b % 2 == 0)
  }

  /** Nearest is IEEE rounding: to the nearest of all patterns, ties to even. */
  lemma {:induction false} NearestIsClosest(n: nat, k: nat, w: nat)
    ensures AsNear(n, k, Nearest(n, k), w)
    decreases n / Pow2(k)
  {
    hide AsNear, PatternUnits;
    if n < 2 * HIDDEN * Pow2(k) {
      SmallIsClosest(n, k, w);
    } else {
      HalvingDescends(n, k);
      MulAssoc(HIDDEN, 2, Pow2(k));
      NearestBound(n, k + 1);
      var b := Nearest(n, k);
      if w < 2 * HIDDEN {
        NearestIsClosest(n, k + 1, HIDDEN);
        SmallIsFar(n, k, b, w);
      } else {
        NearestIsClosest(n, k + 1, w - HIDDEN);
        AsNearHalved(n, k, b, w);
      }
    }
  }

  lemma AsNearHalved(n: nat, k: nat, b: nat, w: nat)
    requires b >= 2 * HIDDEN && w >= 2 * HIDDEN
    requires AsNear(n, k + 1, b - HIDDEN, w - HIDDEN)
    ensures AsNear(n, k, b, w)
  {
    hide PatternUnits, Pow2;
    HalvedValue(b, k);
    HalvedValue(w, k);
  }

  lemma HalvedValue(b: nat, k: nat)
    requires b >= 2 * HIDDEN
    ensures PatternUnits(b) * Pow2(k) == PatternUnits(b - HIDDEN) * Pow2(k + 1)
  {
    PatternDoubles(b - HIDDEN);
    MulAssoc(PatternUnits(b - HIDDEN), 2, Pow2(k));
  }

  lemma SmallIsFar(n: nat, k: nat, b: nat, w: nat)
    requires n >= 2 * HIDDEN * Pow2(k) && w < 2 * HIDDEN && b >= 2 * HIDDEN
    requires AsNear(n, k + 1, b - HIDDEN, HIDDEN)
    ensures AsNear(n, k, b, w)
  {
    PatternFields(w);
    PatternFields(HIDDEN);
    assert PatternUnits(w) == w && PatternUnits(HIDDEN) == HIDDEN && Pow2(k + 1) == 2 * Pow2(k);
    hide PatternUnits, Pow2;
    HalvedValue(b, k);
    MulStrict(w, 2 * HIDDEN, Pow2(k));
    MulAssoc(HIDDEN, 2, Pow2(k));
  }

  lemma SmallIsClosest(n: nat, k: nat, w: nat)
    requires n < 2 * HIDDEN * Pow2(k)
    ensures AsNear(n, k, HalfEven(n, Pow2(k)), w)
  {
    var d := Pow2(k);
    var b := HalfEven(n, d);
    HalfEvenAtMost(n, d, 2 * HIDDEN);
    TopPattern();
    PatternFields(b);
    PatternFields(w);
    PatternMonotone(2 * HIDDEN, w);
    HalfEvenClosest(n, d, w);
    if w > 2 * HIDDEN {
      HalfEvenClosest(n, d, 2 * HIDDEN);
      MulStrict(2 * HIDDEN, PatternUnits(w), d);
    }
  }

  lemma TopPattern()
    ensures PatternUnits(2 * HIDDEN) == 2 * HIDDEN
  {
    PatternFields(HIDDEN);
    PatternDoubles(HIDDEN);
  }

  // ---- The operations of section 5.4.1 that math uses, on finite operands ----

  function Signed(neg: bool, magnitude: nat): Bits
    requires magnitude < SIGN
  {
    if neg then SIGN + magnitude else magnitude
  }

  /** The double nearest to n / 2^k units; beyond the finite range, an infinity. */
  function Round(neg: bool, n: nat, k: nat): Bits {
    var b := Nearest(n, k);
    Signed(neg, if b < UVINF then b else UVINF)
  }

  /** The exact value, in units of 2^-1074. */
  function Val(x: Bits): int
    requires Finite(x)
  {
    if Neg(x) then 0 - Units(x) else Units(x)
  }

  /** The sum or difference v; an exact zero gets the given sign. */
  function RoundValue(v: int, negZero: bool): Bits {
    if v == 0 then Signed(negZero, 0) else Round(v < 0, Dist(v, 0), 0)
  }

  /** x + y */
  function FAdd(x: Bits, y: Bits): Bits
    requires Finite(x) && Finite(y)
  {
    RoundValue(Val(x) + Val(y), Neg(x) && Neg(y))
  }

  /** x - y */
  function FSub(x: Bits, y: Bits): Bits
    requires Finite(x) && Finite(y)
  {
    RoundValue(Val(x) - Val(y), Neg(x) && !Neg(y))
  }

  /** x * 2^e, the product with an exact power of two. */
  function FScale(x: Bits, e: int): Bits
    requires Finite(x)
  {
    if e >= 0 then Round(Neg(x), Units(x) * Pow2(e), 0) else Round(Neg(x), Units(x), -e)
  }

  /** x < y: patterns order as signed magnitudes, both zeros are equal, NaN is unordered. */
  predicate FLess(x: Bits, y: Bits) {
    !IsNaN(x) && !IsNaN(y) && Key(x) < Key(y)
  }

  /** x <= y, which is y >= x */
  predicate FLessEq(x: Bits, y: Bits) {
    !IsNaN(x) && !IsNaN(y) && Key(x) <= Key(y)
  }

  /** x == y */
  predicate FEqual(x: Bits, y: Bits) {
    !IsNaN(x) && !IsNaN(y) && Key(x) == Key(y)
  }

  function Key(x: Bits): int {
    if Neg(x) then 0 - Abs(x) else Abs(x)
  }

  lemma SignedFields(neg: bool, b: nat)
    requires b < UVINF
    ensures
      var x := Signed(neg, b);
      Finite(x) && Neg(x) == neg && Abs(x) == b && Units(x) == PatternUnits(b)
  {
    DivisionLaw(b, HIDDEN);
    FieldsFrom(neg, b / HIDDEN, b % HIDDEN);
  }

  lemma FiniteIsPattern(x: Bits)
    ensures Finite(x) <==> Abs(x) < UVINF
    ensures Finite(x) ==> PatternUnits(Abs(x)) == Units(x)
  {
    FieldsOf(x);
    DivisionUnique(Abs(x), HIDDEN, Expo(x), Frac(x));
  }

  /** Comparison is comparison of values. */
  lemma CompareByValue(x: Bits, y: Bits)
    requires Finite(x) && Finite(y)
    ensures FLess(x, y) <==> Val(x) < Val(y)
    ensures FLessEq(x, y) <==> Val(x) <= Val(y)
  {
    UnitsMonotone(x, y);
    UnitsMonotone(y, x);
    ZeroUnits(x);
    ZeroUnits(y);
  }

  lemma ZeroUnits(x: Bits)
    requires Finite(x)
    ensures Units(x) == 0 <==> Abs(x) == 0
  {
    FieldsOf(x);
    FieldsFrom(false, 0, 0);
    UnitsMonotone(0, x);
  }

  /** A value held by some finite double is returned exactly. */
  lemma RoundExact(neg: bool, n: nat, k: nat, x: Bits)
    requires Finite(x) && n == Units(x) * Pow2(k)
    ensures
      var z := Round(neg, n, k);
      Finite(z) && Neg(z) == neg && Abs(z) == Abs(x) && Units(z) == Units(x)
  {
    FiniteIsPattern(x);
    NearestExact(Abs(x), k);
    SignedFields(neg, Abs(x));
  }

  /** So is an in-range multiple m * 2^g with a 53-bit m. */
  lemma RoundMultiple(neg: bool, m: nat, g: nat, top: Bits)
    requires m < 2 * HIDDEN && Finite(top) && m * Pow2(g) <= Units(top)
    ensures
      var z := Round(neg, m * Pow2(g), 0);
      Finite(z) && Neg(z) == neg && Units(z) == m * Pow2(g)
  {
    hide Nearest, PatternUnits, Units, Pow2;
    var b := Nearest(m * Pow2(g), 0);
    NearestOfMultiple(m, g);
    FiniteIsPattern(top);
    PatternMonotone(Abs(top), b);
    SignedFields(neg, b);
  }

  /** Every double is a 53-bit multiple of a power of two. */
  function Coefficient(x: Bits): (m: nat)
    ensures m < 2 * HIDDEN
  {
    if Expo(x) == 0 then Frac(x) else HIDDEN + Frac(x)
  }

  function Grain(x: Bits): nat {
    if Expo(x) == 0 then 0 else Expo(x) - 1
  }

  lemma UnitsByGrain(x: Bits)
    requires Finite(x)
    ensures Units(x) == Coefficient(x) * Pow2(Grain(x))
  {
  }

  /** Sterbenz: the difference of doubles within a factor of two is exact. */
  lemma CloseDifferenceExact(x: Bits, y: Bits)
    requires Finite(x) && Finite(y) && !Neg(x) && !Neg(y)
    requires Units(x) <= 2 * Units(y) && Units(y) <= 2 * Units(x)
    ensures
      var z := FSub(x, y);
      Finite(z) && Val(z) == Val(x) - Val(y) && Neg(z) == (Val(z) < 0)
  {
    hide Units, Pow2, Nearest, PatternUnits;
    if Units(x) == Units(y) {
      SignedFields(false, 0);
      SmallIsPattern(0);
      ZeroUnits(0);
    } else {
      var (l, s) := if Units(x) > Units(y) then (x, y) else (y, x);
      var j := DifferenceMultiple(l, s);
      RoundMultiple(Units(x) < Units(y), j, Grain(s), l);
    }
  }

  lemma DifferenceMultiple(l: Bits, s: Bits) returns (j: nat)
    requires Finite(l) && Finite(s) && !Neg(l) && !Neg(s)
    requires Units(s) < Units(l) <= 2 * Units(s)
    ensures j < 2 * HIDDEN && Units(l) - Units(s) == j * Pow2(Grain(s))
  {
    hide Units, Pow2;
    var (g, h) := (Grain(s), Grain(l));
    GrainMonotone(s, l);
    UnitsByGrain(s);
    UnitsByGrain(l);
    Pow2Add(h - g, g);
    MulAssoc(Coefficient(l), Pow2(h - g), Pow2(g));
    var big := Coefficient(l) * Pow2(h - g);
    j := CoefficientGap(big, Coefficient(s), Pow2(g));
  }

  lemma GrainMonotone(s: Bits, l: Bits)
    requires Finite(s) && Finite(l) && !Neg(s) && !Neg(l) && Units(s) <= Units(l)
    ensures Grain(s) <= Grain(l)
  {
    UnitsMonotone(l, s);
    FieldsOf(s);
    FieldsOf(l);
  }

  lemma CoefficientGap(big: nat, m: nat, p: nat) returns (j: nat)
    requires p > 0 && m * p < big * p <= 2 * (m * p)
    ensures j <= m && big * p - m * p == j * p
  {
    if big < m {
      MulMonotone(big, m, p);
    }
    if big > 2 * m {
      MulStrict(2 * m, big, p);
      MulAssoc(2, m, p);
    }
    j := big - m;
    MulDistribute(big, m, p);
  }
}
