/** math/sqrt.go: the bit-by-bit square root. */
module Sqrt {
  import opened Powers
  import opened Float64

  function Sq(n: int): int {
    n * n
  }

  /**
   z is strictly closer to the real square root of x than every other double is:
   the root lies on z's side of the midpoint of z and w. In units u = 2^-1074 the
   midpoint is (Z + W) * u / 2 and x is X * u, so the midpoint lies above the root
   exactly when (Z + W)^2 > 4 * X * 2^1074.
   */
  ghost predicate StrictlyNearestRoot(x: Bits, z: Bits)
    requires Finite(x)
  {
    && Finite(z)
    && !Neg(z)
    && forall w: Bits | Finite(w) && !Neg(w) && w != z ::
         if z < w
         then 4 * Units(x) * Pow2(1074) < Sq(Units(z) + Units(w))
         else Sq(Units(z) + Units(w)) < 4 * Units(x) * Pow2(1074)
  }

  /** ix & (1 << shift) */
  function HiddenBit(ix: Bits): (b: nat)
    ensures ix < 2 * HIDDEN ==> (b == 0 <==> ix < HIDDEN)
  {
    (ix / HIDDEN) % 2
  }

  /** ix &^ (mask << shift) | 1 << shift */
  function Significand(ix: Bits): (m: Bits)
    requires !Neg(ix)
    ensures m == HIDDEN + Frac(ix)
  {
    FieldsOf(ix);
    ix - Expo(ix) * HIDDEN + HIDDEN
  }

  /** The significand of a positive finite x and its exponent. */
  method Normalize(x: Bits) returns (ix: Bits, exp: int)
    requires 0 < x < UVINF
    ensures HIDDEN <= ix < 2 * HIDDEN
    ensures -1074 <= exp <= 1023
    ensures Units(x) * HIDDEN == ix * Pow2(exp + 1074)
  {
    hide HiddenBit, Shl;
    FieldsOf(x);
    ix := x;
    exp := Expo(ix);
    if exp == 0 {
      while HiddenBit(ix) == 0
        invariant 0 < ix < 2 * HIDDEN
        invariant exp <= 0
        invariant ix == Units(x) * Pow2(-exp)
        decreases 2 * HIDDEN - ix
      {
        MulAssoc(Units(x), Pow2(-exp), 2);
        ix := Shl(ix);
        exp := exp - 1;
      }
      SubnormalScale(Units(x), -exp, ix);
      exp := exp + 1;
    } else {
      NormalScale(HIDDEN + Frac(x), exp);
    }
    exp := exp - BIAS;
    ix := Significand(ix);
  }

  /** Scale a positive finite x to ix * 2^(2*exp - 52). */
  method ScaleToEven(x: Bits) returns (ix: Bits, exp: int)
    requires 0 < x < UVINF
    ensures HIDDEN <= ix < 4 * HIDDEN - 1
    ensures -537 <= exp <= 511
    ensures Units(x) * HIDDEN == ix * Pow2(2 * exp + 1074)
  {
    ix, exp := Normalize(x);
    if exp % 2 == 1 { // an even exponent halves exactly
      MulAssoc(ix, 2, Pow2(exp - 1 + 1074));
      ix := Shl(ix);
    }
    exp := exp / 2; // exp >> 1
  }

  lemma SubnormalScale(u: nat, k: nat, ix: nat)
    requires 0 < u && ix == u * Pow2(k) && HIDDEN <= ix < 2 * HIDDEN
    ensures k <= 52 && u * HIDDEN == ix * Pow2(52 - k)
  {
    Pow2At52();
    MulMonotone(1, u, Pow2(k));
    Pow2Below(k, 53);
    Pow2Add(k, 52 - k);
    MulAssoc(u, Pow2(k), Pow2(52 - k));
  }

  lemma NormalScale(m: nat, e: nat)
    requires 0 < e
    ensures m * Pow2(e - 1) * HIDDEN == m * Pow2(e + 51)
  {
    Pow2At52();
    Pow2Add(e - 1, 52);
    MulAssoc(m, Pow2(e - 1), HIDDEN);
  }

  /**
   The recurrence of the digit loop with X == ix0 * 2^54: ix * r == X - q*q while
   digits remain; once they are spent q is the integer root of X.
   */
  ghost predicate Recurrence(X: int, q: nat, r: nat, ix: int) {
    if r == 0 then Sq(q) <= X < Sq(q + 1) && ix == 2 * (X - Sq(q))
    else ix * r == X - Sq(q) && X < Sq(q + 2 * r)
  }

  /**
   One binary digit of the root per round. q ends as the integer
   root of X, and the remainder is zero exactly when that root is exact.
   */
  method RootDigits(ix0: Bits) returns (q: Bits, rest: Bits)
    requires HIDDEN <= ix0 < 4 * HIDDEN
    ensures Sq(q) <= ix0 * (4 * HIDDEN) < Sq(q + 1)
    ensures rest == 0 <==> Sq(q) == ix0 * (4 * HIDDEN)
  {
    hide Sq, Pow2, Recurrence, Shl;
    ghost var X := ix0 * (4 * HIDDEN);
    FirstDigit(ix0);
    var ix: Bits := Shl(ix0);
    var s: Bits := 0; // s is 2*q
    q := 0;
    var r: Bits := 2 * HIDDEN; // the bit under trial
    ghost var j: nat := 54;
    while r != 0
      invariant r == Pow2(j) / 2
      invariant s == 2 * q && q + 2 * r <= 4 * HIDDEN
      invariant Recurrence(X, q, r, ix)
      decreases r
    {
      BitOf(j, r);
      DigitStep(X, q, r, ix);
      var t := s + r;
      if t <= ix {
        s := t + r;
        ix := ix - t;
        q := q + r;
      }
      ix := Shl(ix);
      r := r / 2; // r >> 1
      j := j - 1;
    }
    LastDigit(X, q, ix);
    rest := ix;
  }

  lemma FirstDigit(ix: nat)
    requires ix < 4 * HIDDEN
    ensures Recurrence(ix * (4 * HIDDEN), 0, 2 * HIDDEN, 2 * ix) && 2 * HIDDEN == Pow2(54) / 2
  {
    Pow2At52();
    MulStrict(ix, 4 * HIDDEN, 4 * HIDDEN);
  }

  /** The bit r is a power of two until it is shifted out. */
  lemma BitOf(j: nat, r: nat)
    requires r == Pow2(j) / 2 && r > 0
    ensures j > 0 && r / 2 == Pow2(j - 1) / 2 && (r == 1 || r % 2 == 0)
  {
  }

  lemma LastDigit(X: int, q: nat, ix: int)
    requires Recurrence(X, q, 0, ix)
    ensures Sq(q) <= X < Sq(q + 1) && (ix == 0 <==> Sq(q) == X)
  {
  }

  /**
   Taking the digit r when 2*q + r fits, and leaving it otherwise, keeps the
   recurrence for the next digit; the partial remainder stays far below 2^63, so
   no step of the loop wraps.
   */
  lemma DigitStep(X: int, q: nat, r: nat, ix: nat)
    requires r == 1 || (r > 0 && r % 2 == 0)
    requires Recurrence(X, q, r, ix)
    ensures
      var taken := 2 * q + r <= ix;
      var (q', ix') := if taken then (q + r, ix - (2 * q + r)) else (q, ix);
      Recurrence(X, q', r / 2, 2 * ix') && ix' < 2 * q' + r
  {
    var taken := 2 * q + r <= ix;
    var (q', ix') := if taken then (q + r, ix - (2 * q + r)) else (q, ix);
    SquareOfSum(q, r);
    if taken {
      MulDistribute(ix, 2 * q + r, r);
    } else {
      MulStrict(ix, 2 * q + r, r);
    }
    assert ix' * r == X - Sq(q') && X < Sq(q' + r);
    RemainderFits(X, q', r, ix');
    if r > 1 {
      HalveStep(ix', r);
    }
  }

  lemma SquareOfSum(q: int, r: int)
    ensures Sq(q + r) == Sq(q) + (2 * q + r) * r
  {
  }

  lemma RemainderFits(X: int, q: nat, r: nat, ix: nat)
    requires r > 0 && ix * r == X - Sq(q) && X < Sq(q + r)
    ensures ix < 2 * q + r
  {
    SquareOfSum(q, r);
    if 2 * q + r <= ix {
      MulMonotone(2 * q + r, ix, r);
    }
  }

  lemma HalveStep(ix: int, r: nat)
    requires r % 2 == 0
    ensures (2 * ix) * (r / 2) == ix * r
  {
    assert r == 2 * (r / 2);
    MulAssoc(ix, 2, r / 2);
  }

  /**
   Rounding q by its last bit halves it to the nearest integer. X is
   a multiple of four, so an exact root is even and no tie can arise.
   */
  lemma RoundedRoot(q: nat, X: nat, m: nat)
    requires 2 <= q && Sq(q) <= X < Sq(q + 1) && X % 4 == 0
    requires m == (if Sq(q) != X then q + q % 2 else q) / 2
    ensures Sq(2 * m - 1) < X < Sq(2 * m + 1)
  {
    if q % 2 == 0 {
      SquareMonotone(2 * m - 1, q);
    } else {
      OddSquare(q);
      assert q == 2 * m - 1;
    }
  }

  lemma OddSquare(q: nat)
    requires q % 2 == 1
    ensures Sq(q) % 4 == 1
  {
    var h := q / 2;
    assert q == 2 * h + 1;
    assert Sq(q) == 4 * (h * h + h) + 1;
  }

  /** A 54-bit root: 2^53 <= q < 2^54 - 1. */
  lemma RootBounds(q: nat, ix: nat)
    requires HIDDEN <= ix < 4 * HIDDEN - 1
    requires Sq(q) <= ix * (4 * HIDDEN) < Sq(q + 1)
    ensures 2 * HIDDEN <= q < 4 * HIDDEN - 1
  {
    if q < 2 * HIDDEN {
      SquareMonotone(q + 1, 2 * HIDDEN);
      MulMonotone(HIDDEN, ix, 4 * HIDDEN);
    }
    if q >= 4 * HIDDEN - 1 {
      SquareMonotone(4 * HIDDEN - 1, q);
      MulMonotone(ix, 4 * HIDDEN - 2, 4 * HIDDEN);
    }
  }

  lemma SquareMonotone(a: nat, b: nat)
    requires a <= b
    ensures Sq(a) <= Sq(b)
    ensures a < b ==> Sq(a) < Sq(b)
  {
    SquareOfSum(a, b - a);
  }

  lemma SquareOfProduct(a: int, b: int)
    ensures Sq(a * b) == Sq(a) * Sq(b)
  {
    MulAssoc(a * b, a, b);
    MulAssoc(a, b, a);
    MulAssoc(a, a, b);
    MulAssoc(a * a, b, b);
  }

  /** 4 * x in the units of squared doubles is X * 2^(2E), the scale of z squared. */
  lemma RadicandScale(u: nat, ix: nat, exp: int)
    requires -537 <= exp
    requires u * HIDDEN == ix * Pow2(2 * exp + 1074)
    ensures 4 * u * Pow2(1074) == ix * (4 * HIDDEN) * Sq(Pow2(exp + 1022))
  {
    hide Sq, Pow2;
    var E := exp + 1022;
    Pow2Square(E);
    Pow2At52();
    Pow2Add(2 * exp + 1074, 1074);
    Pow2Add(52, 52);
    Pow2Add(104, 2 * E);
    Rescale(u, ix, Pow2(2 * exp + 1074), Pow2(1074), Pow2(2 * E));
  }

  lemma Pow2Square(e: nat)
    ensures Sq(Pow2(e)) == Pow2(2 * e)
  {
    hide Pow2;
    Pow2Add(e, e);
  }

  lemma Rescale(u: nat, ix: nat, a: nat, b: nat, p: nat)
    requires u * HIDDEN == ix * a
    requires a * b == HIDDEN * HIDDEN * p
    ensures 4 * u * b == ix * (4 * HIDDEN) * p
  {
    calc {
      (u * b) * HIDDEN;
      (u * HIDDEN) * b;
      { MulAssoc(ix, a, b); }
      ix * (HIDDEN * HIDDEN * p);
      (ix * HIDDEN * p) * HIDDEN;
    }
  }

  /** A significand m with (2m-1)^2 < X < (2m+1)^2 is the nearest root's. */
  lemma RootIsNearest(x: Bits, ix: nat, exp: int, m: nat, z: Bits)
    requires 0 < x < UVINF && Finite(x)
    requires HIDDEN <= ix && -537 <= exp <= 511
    requires Units(x) * HIDDEN == ix * Pow2(2 * exp + 1074)
    requires HIDDEN <= m < 2 * HIDDEN
    requires Sq(2 * m - 1) < ix * (4 * HIDDEN) < Sq(2 * m + 1)
    requires z == m + (exp - 1 + BIAS) * HIDDEN
    ensures StrictlyNearestRoot(x, z)
  {
    hide Sq, Pow2, Value;
    FieldsFrom(false, exp + BIAS, m - HIDDEN);
    RadicandLow(ix);
    RadicandScale(Units(x), ix, exp);
    forall w: Bits | Finite(w) && !Neg(w) && w != z
      ensures if z < w
              then 4 * Units(x) * Pow2(1074) < Sq(Units(z) + Units(w))
              else Sq(Units(z) + Units(w)) < 4 * Units(x) * Pow2(1074)
    {
      Separated(z, w, exp + 1022, m, ix * (4 * HIDDEN));
    }
  }

  lemma RadicandLow(ix: nat)
    requires HIDDEN <= ix
    ensures Sq(2 * HIDDEN) <= ix * (4 * HIDDEN)
  {
    MulMonotone(HIDDEN, ix, 4 * HIDDEN);
  }

  /** In squares of z's unit in the last place, X never meets a midpoint. */
  lemma Separated(z: Bits, w: Bits, E: nat, m: nat, X: nat)
    requires Finite(z) && Finite(w) && !Neg(z) && !Neg(w) && w != z
    requires Expo(z) == E + 1 && HIDDEN + Frac(z) == m
    requires Sq(2 * m - 1) < X < Sq(2 * m + 1) && X >= Sq(2 * HIDDEN)
    ensures if z < w then X * Sq(Pow2(E)) < Sq(Units(z) + Units(w))
                     else Sq(Units(z) + Units(w)) < X * Sq(Pow2(E))
  {
    hide Sq, Pow2, Units;
    ScaleOf(z, E, m);
    if z < w {
      NextAbove(z, w, E, m);
      FarAbove(X, m, Pow2(E), Units(z) + Units(w));
    } else {
      NextBelow(z, w, E, m);
      FarBelow(X, m, Pow2(E), Units(z) + Units(w));
    }
  }

  lemma ScaleOf(z: Bits, E: nat, m: nat)
    requires Finite(z) && Expo(z) == E + 1 && HIDDEN + Frac(z) == m
    ensures Units(z) == m * Pow2(E) && Pow2(E) > 0
  {
  }

  lemma NextAbove(z: Bits, w: Bits, E: nat, m: nat)
    requires Finite(z) && Finite(w) && !Neg(z) && !Neg(w) && z < w
    requires Expo(z) == E + 1 && HIDDEN + Frac(z) == m
    ensures Units(w) >= (m + 1) * Pow2(E)
  {
    FieldsOf(z);
    FieldsOf(w);
    if Expo(w) == E + 1 {
      MulMonotone(m + 1, HIDDEN + Frac(w), Pow2(E));
    } else {
      ValueRange(Expo(w), Frac(w));
      Pow2Monotone(E, Expo(w) - 1);
      MulMonotone(2 * Pow2(E), Pow2(Expo(w) - 1), HIDDEN);
      MulMonotone(m + 1, 2 * HIDDEN, Pow2(E));
    }
  }

  lemma NextBelow(z: Bits, w: Bits, E: nat, m: nat)
    requires Finite(z) && Finite(w) && !Neg(z) && !Neg(w) && w < z
    requires Expo(z) == E + 1 && HIDDEN + Frac(z) == m
    ensures m > HIDDEN ==> Units(w) <= (m - 1) * Pow2(E)
    ensures Units(w) < m * Pow2(E)
  {
    FieldsOf(z);
    FieldsOf(w);
    if Expo(w) == E + 1 {
      MulMonotone(HIDDEN + Frac(w), m - 1, Pow2(E));
      MulStrict(m - 1, m, Pow2(E));
    } else {
      ValueRange(Expo(w), Frac(w));
      Pow2Monotone(Expo(w), E);
      MulMonotone(Pow2(Expo(w)), Pow2(E), HIDDEN);
      MulMonotone(HIDDEN, m, Pow2(E));
      if m > HIDDEN {
        MulMonotone(HIDDEN, m - 1, Pow2(E));
      }
    }
  }

  lemma FarAbove(X: nat, m: nat, P: nat, total: nat)
    requires P > 0 && X < Sq(2 * m + 1)
    requires total >= m * P + (m + 1) * P
    ensures X * Sq(P) < Sq(total)
  {
    assert m * P + (m + 1) * P == (2 * m + 1) * P;
    SquareMonotone((2 * m + 1) * P, total);
    SquareOfProduct(2 * m + 1, P);
    SquareMonotone(0, P);
    MulStrict(X, Sq(2 * m + 1), Sq(P));
  }

  lemma FarBelow(X: nat, m: nat, P: nat, total: nat)
    requires P > 0 && m >= HIDDEN && Sq(2 * m - 1) < X && X >= Sq(2 * HIDDEN)
    requires total < m * P + m * P
    requires m > HIDDEN ==> total <= m * P + (m - 1) * P
    ensures Sq(total) < X * Sq(P)
  {
    SquareMonotone(0, P);
    if m > HIDDEN {
      assert m * P + (m - 1) * P == (2 * m - 1) * P;
      SquareMonotone(total, (2 * m - 1) * P);
      SquareOfProduct(2 * m - 1, P);
      MulStrict(Sq(2 * m - 1), X, Sq(P));
    } else {
      assert m * P + m * P == (2 * m) * P;
      SquareMonotone(total, (2 * m) * P);
      SquareOfProduct(2 * m, P);
      MulMonotone(Sq(2 * m), X, Sq(P));
    }
  }

  /** The whole of sqrt, special cases included. */
  method Sqrt(x: Bits) returns (z: Bits)
    ensures IsZero(x) || IsNaN(x) || x == UVINF ==> z == x
    ensures !IsZero(x) && !IsNaN(x) && Neg(x) ==> z == UVNAN
    ensures 0 < x < UVINF ==> StrictlyNearestRoot(x, z)
  {
    hide Sq, Pow2, Units, StrictlyNearestRoot;
    FieldsOf(x);
    if IsZero(x) || IsNaN(x) || x == UVINF {
      return x;
    }
    if Neg(x) { // x < 0, -Inf included
      return UVNAN;
    }
    var ix, exp := ScaleToEven(x);
    var q, rest := RootDigits(ix);
    RootBounds(q, ix);
    ghost var m := (if Sq(q) != ix * (4 * HIDDEN) then q + q % 2 else q) / 2;
    RoundedRoot(q, ix * (4 * HIDDEN), m);
    if rest != 0 { // the root lies above q
      q := q + q % 2; // to the even one of q and q + 1
    }
    z := q / 2 + (exp - 1 + BIAS) * HIDDEN;
    RootIsNearest(x, ix, exp, m, z);
  }

  /** A perfect square gets its exact root. */
  lemma ExactRootIsReturned(x: Bits, z: Bits, w: Bits)
    requires Finite(x) && StrictlyNearestRoot(x, z)
    requires Finite(w) && !Neg(w) && Sq(Units(w)) == Units(x) * Pow2(1074)
    ensures z == w
  {
    hide Sq, Units;
    UnitsMonotone(z, w);
    UnitsMonotone(w, z);
    SumSquare(Units(z), Units(w), Units(x), Pow2(1074));
  }

  lemma SumSquare(z: nat, w: nat, x: nat, p: nat)
    requires Sq(w) == x * p
    ensures z < w ==> Sq(z + w) < 4 * x * p
    ensures w < z ==> 4 * x * p < Sq(z + w)
  {
    MulAssoc(4, x, p);
    if z < w {
      SquareMonotone(z + w, 2 * w);
    } else if w < z {
      SquareMonotone(2 * w, z + w);
    }
  }

  /** The nearest root is monotone in its argument, so it is also unique. */
  lemma NearestRootMonotone(x: Bits, z: Bits, x': Bits, z': Bits)
    requires Finite(x) && StrictlyNearestRoot(x, z)
    requires Finite(x') && StrictlyNearestRoot(x', z')
    requires Abs(x) <= Abs(x')
    ensures z <= z'
  {
    if z' < z {
      hide Pow2, Units, Sq;
      UnitsMonotone(x', x);
      var mid := Sq(Units(z) + Units(z'));
      assert mid < 4 * Units(x) * Pow2(1074);
      assert 4 * Units(x') * Pow2(1074) < mid;
      MulMonotone(4 * Units(x), 4 * Units(x'), Pow2(1074));
    }
  }
}
