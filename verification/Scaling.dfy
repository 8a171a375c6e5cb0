/** math/frexp.go, math/ldexp.go and normalize of math/bits.go. */
module Scaling {
  import opened Powers
  import opened Float64
  import opened Rounding

  // ---- Exact scaling by a signed power of two ----

  /** u == v * 2^e */
  ghost predicate IsScaled(u: nat, v: nat, e: int) {
    if e >= 0 then u == v * Pow2(e) else u * Pow2(-e) == v
  }

  lemma ScaledAt(u: nat, v: nat, e: int, k: nat)
    requires e + k >= 0
    ensures IsScaled(u, v, e) <==> u * Pow2(k) == v * Pow2(e + k)
  {
    if e >= 0 {
      Pow2Add(e, k);
      MulAssoc(v, Pow2(e), Pow2(k));
      MulCancel(u, v * Pow2(e), Pow2(k));
    } else {
      Pow2Add(-e, e + k);
      MulAssoc(u, Pow2(-e), Pow2(e + k));
      MulCancel(u * Pow2(-e), v, Pow2(e + k));
    }
  }

  lemma ScaledTransitive(u: nat, v: nat, w: nat, a: int, b: int)
    requires IsScaled(u, v, a) && IsScaled(v, w, b)
    ensures IsScaled(u, w, a + b)
  {
    hide IsScaled;
    var k: nat := Dist(a, 0) + Dist(b, 0);
    ScaledAt(u, v, a, k);
    ScaledAt(v, w, b, a + k);
    ScaledAt(u, w, a + b, k);
  }

  /** The double nearest to u * 2^s units. */
  function RoundScaled(neg: bool, u: nat, s: int): Bits {
    if s >= 0 then Round(neg, u * Pow2(s), 0) else Round(neg, u, -s)
  }

  lemma NearestRatio(n: nat, k: nat, n': nat, k': nat)
    requires n * Pow2(k') == n' * Pow2(k)
    ensures Nearest(n, k) == Nearest(n', k')
  {
    NearestScale(n, k, k');
    NearestScale(n', k', k);
  }

  /** Equal values round alike, however they are written. */
  lemma RoundSameValue(neg: bool, u: nat, v: nat, a: int, s: int)
    requires IsScaled(u, v, a)
    ensures RoundScaled(neg, u, s) == RoundScaled(neg, v, a + s)
  {
    hide IsScaled, Round, Pow2;
    var (n, k) := if s >= 0 then (u * Pow2(s), 0) else (u, -s);
    var (n', k') := if a + s >= 0 then (v * Pow2(a + s), 0) else (v, -(a + s));
    SignedNumerator(n, k, u, s);
    SignedNumerator(n', k', v, a + s);
    ScaledTransitive(n, u, v, s + k, a);
    // n == v * 2^(s+k+a) and n' == v * 2^(a+s+k')
    SameScale(n, n', v, s + k + a, a + s + k', k, k');
    NearestRatio(n, k, n', k');
    RoundByNearest(neg, n, k, n', k');
  }

  lemma SignedNumerator(n: nat, k: nat, u: nat, s: int)
    requires if s >= 0 then n == u * Pow2(s) && k == 0 else n == u && k == -s
    ensures IsScaled(n, u, s + k)
  {
  }

  lemma SameScale(n: nat, n': nat, v: nat, e: int, e': int, k: nat, k': nat)
    requires IsScaled(n, v, e) && IsScaled(n', v, e') && e - e' == k - k'
    ensures n * Pow2(k') == n' * Pow2(k)
  {
    hide IsScaled;
    var j: nat := Dist(e, 0) + Dist(e', 0);
    ScaledAt(n, v, e, j + k');
    ScaledAt(n', v, e', j + k);
    Pow2Add(k', j);
    Pow2Add(k, j);
    MulAssoc(n, Pow2(k'), Pow2(j));
    MulAssoc(n', Pow2(k), Pow2(j));
    MulCancel(n * Pow2(k'), n' * Pow2(k), Pow2(j));
  }

  lemma RoundByNearest(neg: bool, n: nat, k: nat, n': nat, k': nat)
    requires Nearest(n, k) == Nearest(n', k')
    ensures Round(neg, n, k) == Round(neg, n', k')
  {
  }

  // ---- The code ----

  /** normalize: x == y * 2^exp with y normal. */
  method Normalize(x: Bits) returns (y: Bits, exp: int)
    requires Finite(x) && !IsZero(x)
    ensures Finite(y) && Expo(y) > 0 && Neg(y) == Neg(x)
    ensures IsScaled(Units(x), Units(y), exp)
    ensures if Expo(x) == 0 then exp == -52 else exp == 0 && y == x
  {
    FieldsOf(x);
    if Abs(x) < HIDDEN { // SmallestNormal
      SubnormalTimes(x);
      return FScale(x, 52), -52;
    }
    assert Pow2(0) == 1;
    return x, 0;
  }

  lemma SubnormalTimes(x: Bits)
    requires Finite(x) && 0 < Abs(x) < HIDDEN
    ensures
      var y := FScale(x, 52);
      Finite(y) && Expo(y) > 0 && Neg(y) == Neg(x) && IsScaled(Units(x), Units(y), -52)
  {
    FieldsOf(x);
    var u := Units(x);
    var top := Signed(false, 54 * HIDDEN);
    SignedFields(false, 54 * HIDDEN);
    FieldsFrom(false, 54, 0);
    Pow2Monotone(52, 53);
    MulMonotone(u, HIDDEN, Pow2(52));
    MulMonotone(Pow2(52), Pow2(53), HIDDEN);
    RoundMultiple(Neg(x), u, 52, top);
    var y := FScale(x, 52);
    Pow2At52();
    ValueRange(Expo(y), Frac(y));
    MulMonotone(1, u, HIDDEN);
  }

  method Frexp(f: Bits) returns (frac: Bits, exp: int)
    ensures IsZero(f) || !Finite(f) ==> frac == f && exp == 0
    ensures !IsZero(f) && Finite(f) ==>
      && Finite(frac) && Expo(frac) == BIAS - 1 // 1/2 <= |frac| < 1
      && Neg(frac) == Neg(f)
      && IsScaled(Units(f), Units(frac), exp)
      && -1073 <= exp <= 1024
  {
    if IsZero(f) || !Finite(f) {
      return f, 0;
    }
    var x, e := Normalize(f);
    exp := e;
    FractionScale(x);
    exp := exp + Expo(x) - BIAS + 1;
    ghost var y := x;
    x := WithExpo(x, BIAS - 1);
    ScaledTransitive(Units(f), Units(y), Units(x), e, Expo(y) - BIAS + 1);
    frac := x;
  }

  lemma FractionScale(y: Bits)
    requires Finite(y) && Expo(y) > 0
    ensures
      var x := WithExpo(y, BIAS - 1);
      Finite(x) && IsScaled(Units(y), Units(x), Expo(y) - BIAS + 1)
  {
    var m := HIDDEN + Frac(y);
    var e := Expo(y) - BIAS + 1;
    SignificandScale(m, Expo(y) - 1, BIAS - 2);
  }

  lemma SignificandScale(m: nat, a: nat, b: nat)
    ensures IsScaled(m * Pow2(a), m * Pow2(b), a - b)
  {
    hide IsScaled, Pow2;
    MulOne(m, a);
    MulOne(m, b);
    ScaledSymmetric(m * Pow2(b), m, b);
    ScaledTransitive(m * Pow2(a), m, m * Pow2(b), a, 0 - b);
  }

  lemma MulOne(m: nat, e: nat)
    ensures IsScaled(m * Pow2(e), m, e)
  {
  }

  lemma ScaledSymmetric(u: nat, v: nat, e: int)
    requires IsScaled(u, v, e)
    ensures IsScaled(v, u, -e)
  {
  }

  const MIN_INT := -0x8000_0000_0000_0000
  const MAX_INT := 0x7FFF_FFFF_FFFF_FFFF

  /** Addition of int, 64 bits wide. */
  function AddInt(a: int, b: int): (c: int)
    ensures MIN_INT <= c <= MAX_INT
    ensures MIN_INT <= a + b <= MAX_INT ==> c == a + b
  {
    (a + b - MIN_INT) % 0x1_0000_0000_0000_0000 + MIN_INT
  }

  /** The exponent of a non-zero finite double: 2^Logb <= |x| < 2^(Logb + 1). */
  function Logb(x: Bits): int
    requires Finite(x)
  {
    if Expo(x) > 0 then Expo(x) - BIAS else BitLen(Frac(x)) - 1075
  }

  function BitLen(u: nat): (n: nat)
    ensures u < Pow2(n) && (u > 0 ==> n > 0 && Pow2(n - 1) <= u)
  {
    if u == 0 then 0 else 1 + BitLen(u / 2)
  }

  /** After normalization the exponent field alone gives Logb. */
  lemma NormalizedLogb(x: Bits, y: Bits, e: int)
    requires Finite(x) && Finite(y) && !IsZero(x) && Expo(y) > 0
    requires IsScaled(Units(x), Units(y), e) && e <= 0 && (e < 0 ==> Expo(x) == 0)
    requires e == 0 ==> x == y
    ensures Logb(x) == e + Expo(y) - BIAS
  {
    if e < 0 {
      hide Pow2;
      var (u, a, n) := (Frac(x), Expo(y) - 1, BitLen(Frac(x)));
      FieldsOf(x);
      ValueRange(Expo(y), Frac(y));
      Pow2At52();
      Pow2Add(52, a);
      Pow2Add(52, a + 1);
      // 2^(52+a) <= u * 2^-e < 2^(53+a) and 2^(n-1) <= u < 2^n
      Pow2Add(n, -e);
      Pow2Add(n - 1, -e);
      MulStrict(u, Pow2(n), Pow2(-e));
      MulMonotone(Pow2(n - 1), u, Pow2(-e));
      Pow2Below(52 + a, n - e);
      Pow2Below(n - 1 - e, 53 + a);
    }
  }

  lemma Underflow(neg: bool, m: nat, s: int)
    requires m < 2 * HIDDEN && s <= -54
    ensures RoundScaled(neg, m, s) == Signed(neg, 0)
  {
    Pow2At52();
    Pow2Monotone(54, -s);
    DivisionUnique(m, Pow2(-s), 0, m);
    MulMonotone(1, Pow2(-s), 2 * HIDDEN);
  }

  lemma Overflow(neg: bool, m: nat, s: int)
    requires HIDDEN <= m < 2 * HIDDEN && s >= 2046
    ensures RoundScaled(neg, m, s) == Signed(neg, UVINF)
  {
    NearestOfMultiple(m, s);
    assert PatternUnits(UVINF) == HIDDEN * Pow2(2046);
    Pow2Monotone(2046, s);
    MulMonotone(Pow2(2046), Pow2(s), HIDDEN);
    MulMonotone(HIDDEN, m, Pow2(s));
    PatternMonotone(Nearest(m * Pow2(s), 0), UVINF);
  }

  /** Ldexp's tail rounds significand * 2^(exp - 52) correctly for every exp. */
  method Assemble(x0: Bits, exp0: int) returns (z: Bits)
    requires Finite(x0) && Expo(x0) > 0
    ensures z == RoundScaled(Neg(x0), HIDDEN + Frac(x0), exp0 + 1022)
  {
    var x, exp := x0, exp0;
    ghost var m := HIDDEN + Frac(x0);
    if exp < -1075 {
      Underflow(Neg(x), m, exp + 1022);
      return Signed(Neg(x), 0); // Copysign(0, frac)
    }
    if exp > 1023 { // overflow
      Overflow(Neg(x), m, exp + 1022);
      if Neg(x) {
        return UVNEGINF;
      }
      return UVINF;
    }
    var scale := 0; // m = 1
    if exp < -1022 { // denormal
      exp := exp + 53;
      scale := -53; // m = 2**-53
    }
    x := WithExpo(x, exp + BIAS);
    MulOne(m, exp + 1022);
    RoundSameValue(Neg(x), Units(x), m, exp + 1022, scale);
    z := FScale(x, scale);
  }

  /** Wrapping twice is wrapping the sum once. */
  lemma AddIntTwice(a: int, b: int, c: int)
    requires MIN_INT <= a <= MAX_INT && -2000 <= b <= 2000 && -2000 <= c <= 2000
    ensures
      var (t, r) := (a + b + c, AddInt(AddInt(a, b), c));
      && (MIN_INT <= t <= MAX_INT ==> r == t)
      && (t > MAX_INT ==> r < -1_000_000)
      && (t < MIN_INT ==> r > 1_000_000)
  {
  }

  /** frac * 2^exp in terms of the normalized significand. */
  lemma NormalizedValue(frac: Bits, x: Bits, e: int, exp: int)
    requires Finite(frac) && Finite(x) && Expo(x) > 0 && Neg(frac) == Neg(x)
    requires IsScaled(Units(frac), Units(x), e)
    ensures FScale(frac, exp) == RoundScaled(Neg(x), HIDDEN + Frac(x), e + Expo(x) - BIAS + exp + 1022)
  {
    var m := HIDDEN + Frac(x);
    RoundSameValue(Neg(x), Units(frac), Units(x), e, exp);
    MulOne(m, Expo(x) - 1);
    RoundSameValue(Neg(x), Units(x), m, Expo(x) - 1, e + exp);
  }

  /**
   ldexp is frac * 2^exp rounded once and correctly, on the subnormal path too,
   exactly when the 64-bit sum of the exponents does not wrap.
   */
  method Ldexp(frac: Bits, exp: int) returns (z: Bits)
    requires MIN_INT <= exp <= MAX_INT
    ensures IsZero(frac) || !Finite(frac) ==> z == frac
    ensures !IsZero(frac) && Finite(frac) ==>
      (z == FScale(frac, exp) <==> MIN_INT <= exp + Logb(frac) <= MAX_INT)
  {
    hide RoundScaled, FScale, IsScaled, Units, AddInt, Logb;
    if IsZero(frac) || !Finite(frac) {
      return frac;
    }
    var x, e := Normalize(frac);
    var exp' := AddInt(exp, e);
    exp' := AddInt(exp', Expo(x) - BIAS);
    z := Assemble(x, exp');
    NormalizedLogb(frac, x, e);
    NormalizedValue(frac, x, e, exp);
    AddIntTwice(exp, e, Expo(x) - BIAS);
    assert e + Expo(x) - BIAS + exp + 1022 == exp + Logb(frac) + 1022;
    WrappedExponent(Neg(x), Frac(x), exp + Logb(frac), exp');
  }

  /** A wrapped exponent gives zero for what overflows, and infinity for what underflows. */
  lemma WrappedExponent(neg: bool, f: nat, t: int, wrapped: int)
    requires f < HIDDEN
    requires MIN_INT <= t <= MAX_INT ==> wrapped == t
    requires t > MAX_INT ==> wrapped < -1_000_000
    requires t < MIN_INT ==> wrapped > 1_000_000
    ensures RoundScaled(neg, HIDDEN + f, wrapped + 1022) == RoundScaled(neg, HIDDEN + f, t + 1022)
      <==> MIN_INT <= t <= MAX_INT
  {
    hide RoundScaled;
    var m := HIDDEN + f;
    if t > MAX_INT {
      Overflow(neg, m, t + 1022);
      Underflow(neg, m, wrapped + 1022);
    } else if t < MIN_INT {
      Underflow(neg, m, t + 1022);
      Overflow(neg, m, wrapped + 1022);
    }
  }

  /** ldexp inverts frexp on every finite non-zero double. */
  lemma LdexpInvertsFrexp(f: Bits, frac: Bits, exp: int)
    requires Finite(f) && Finite(frac) && Neg(frac) == Neg(f)
    requires IsScaled(Units(f), Units(frac), exp)
    ensures FScale(frac, exp) == f
  {
    hide Round, IsScaled;
    RoundSameValue(Neg(f), Units(f), Units(frac), exp, 0);
    assert Units(f) * Pow2(0) == Units(f);
    RoundExact(Neg(f), Units(f), 0, f);
    FieldsOf(f);
  }

  /** Ldexp of what Frexp returns is the argument, for every pattern. */
  method FrexpThenLdexp(f: Bits) returns (z: Bits)
    ensures z == f
  {
    hide Units, FScale, IsScaled, Logb;
    var frac, exp := Frexp(f);
    HalfLogb(frac);
    z := Ldexp(frac, exp);
    if !IsZero(f) && Finite(f) {
      LdexpInvertsFrexp(f, frac, exp);
    }
  }

  lemma HalfLogb(frac: Bits)
    ensures Finite(frac) && Expo(frac) == BIAS - 1 ==> !IsZero(frac) && Logb(frac) == -1
  {
  }
}
