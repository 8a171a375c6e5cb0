/** math/mod.go: the exact floating-point remainder by scaled subtraction. */
module Mod {
  import opened Powers
  import opened Float64
  import opened Rounding
  import opened Scaling

  /**
   The multiple of y the loop subtracts: with r = a * 2^re and y = b * 2^ye, the
   fractions within a factor of two, Y * 2^d is the largest such product below R.
   */
  lemma ChosenMultiple(R: nat, Y: nat, a: nat, b: nat, re: int, ye: int, d: int)
    requires IsScaled(R, a, re) && IsScaled(Y, b, ye)
    requires 0 < Y <= R && a < 2 * b && b < 2 * a
    requires d == re - ye - (if a < b then 1 else 0)
    ensures d >= 0 && Y * Pow2(d) <= R < 2 * (Y * Pow2(d))
  {
    hide IsScaled, Pow2;
    var k: nat := Dist(re, 0) + Dist(ye, 0) + 1;
    ScaledAt(R, a, re, k);
    ScaledAt(Y, b, ye, k);
    var c := Pow2(ye + d + k);
    FractionStep(a, b, re + k);
    if d >= 0 {
      Pow2Add(ye + k, d);
      CommonFactor(R, Y, b, Pow2(ye + k), Pow2(d), Pow2(k));
    } else {
      Pow2Monotone(ye + d + k, ye + k);
      NotBelow(R, Y, b, c, Pow2(ye + k), Pow2(k));
    }
  }

  lemma NotBelow(R: nat, Y: nat, b: nat, c: nat, p: nat, k: nat)
    requires k > 0 && R * k < 2 * (b * c) && Y * k == b * p && 2 * c <= p
    ensures R < Y
  {
    MulMonotone(2 * c, p, b);
    MulAssoc(b, 2, c);
    MulCancel(R, Y, k);
  }

  /** Comparing the fractions decides which power of two brings b just below a. */
  lemma FractionStep(a: nat, b: nat, e: nat)
    requires e > 0 && a < 2 * b && b < 2 * a
    ensures
      var c := Pow2(e - (if a < b then 1 else 0));
      b * c <= a * Pow2(e) < 2 * (b * c)
  {
    if a < b {
      Halves(a, b, Pow2(e - 1));
    } else {
      hide Pow2;
      var c := Pow2(e);
      MulMonotone(b, a, c);
      MulStrict(a, 2 * b, c);
      MulAssoc(2, b, c);
    }
  }

  lemma Halves(a: nat, b: nat, c: nat)
    requires c > 0 && a < b < 2 * a
    ensures b * c <= a * (2 * c) < 2 * (b * c)
  {
    MulMonotone(b, 2 * a, c);
    MulStrict(a, b, c);
    MulAssoc(a, 2, c);
  }

  lemma CommonFactor(R: nat, Y: nat, b: nat, p: nat, q: nat, k: nat)
    requires k > 0 && Y * k == b * p
    requires b * (p * q) <= R * k < 2 * (b * (p * q))
    ensures Y * q <= R < 2 * (Y * q)
  {
    MulAssoc(b, p, q);
    assert (b * p) * q == (Y * q) * k;
    MulCancel(R, Y * q, k);
    MulCancel(R, 2 * (Y * q), k);
    MulAssoc(2, Y * q, k);
  }

  /** One round of the loop: the subtracted multiple and the difference are both exact. */
  lemma RoundOfLoop(r: Bits, y: Bits, rfr: Bits, yfr: Bits, rexp: int, yexp: int)
    requires Finite(r) && Finite(y) && !Neg(r) && !Neg(y) && 0 < Units(y) <= Units(r)
    requires Finite(rfr) && Expo(rfr) == BIAS - 1 && !Neg(rfr) && IsScaled(Units(r), Units(rfr), rexp)
    requires Finite(yfr) && Expo(yfr) == BIAS - 1 && !Neg(yfr) && IsScaled(Units(y), Units(yfr), yexp)
    requires -1073 <= rexp <= 1024 && -1073 <= yexp <= 1024
    ensures
      var d := rexp - yexp - (if FLess(rfr, yfr) then 1 else 0);
      var s := FScale(y, d);
      && -10_000 <= d + Logb(y) <= 10_000
      && Finite(s)
      && var z := FSub(r, s);
      && Finite(z) && !Neg(z) && Units(z) < Units(r)
      && Units(z) % Units(y) == Units(r) % Units(y)
  {
    hide IsScaled, Pow2, Round, RoundValue, Units;
    var d := rexp - yexp - (if FLess(rfr, yfr) then 1 else 0);
    CompareByValue(rfr, yfr);
    FractionRange(rfr);
    FractionRange(yfr);
    ChosenMultiple(Units(r), Units(y), Units(rfr), Units(yfr), rexp, yexp, d);
    LogbRange(y);
    ScaledUpExact(y, d, r);
    var s := FScale(y, d);
    CloseDifferenceExact(r, s);
    MultipleAway(Units(r), Units(y), Pow2(d));
    MulMonotone(1, Pow2(d), Units(y));
  }

  lemma FractionRange(x: Bits)
    requires Finite(x) && Expo(x) == BIAS - 1
    ensures HIDDEN * Pow2(1021) <= Units(x) < 2 * (HIDDEN * Pow2(1021))
  {
    ValueRange(Expo(x), Frac(x));
    assert Pow2(1022) == 2 * Pow2(1021);
  }

  lemma LogbRange(x: Bits)
    requires Finite(x)
    ensures -1075 <= Logb(x) <= 1023
  {
    if Expo(x) == 0 {
      var n := BitLen(Frac(x));
      Pow2At52();
      if n > 53 {
        Pow2Monotone(52, n - 1);
      }
    }
  }

  lemma ScaledUpExact(y: Bits, d: nat, top: Bits)
    requires Finite(y) && Finite(top) && Units(y) * Pow2(d) <= Units(top)
    ensures
      var s := FScale(y, d);
      Finite(s) && Neg(s) == Neg(y) && Units(s) == Units(y) * Pow2(d)
  {
    hide Units, Pow2, Round;
    UnitsByGrain(y);
    Pow2Add(Grain(y), d);
    MulAssoc(Coefficient(y), Pow2(Grain(y)), Pow2(d));
    RoundMultiple(Neg(y), Coefficient(y), Grain(y) + d, top);
  }

  lemma MultipleAway(r: nat, y: nat, p: nat)
    requires y > 0 && y * p <= r
    ensures (r - y * p) % y == r % y
  {
    var z := r - y * p;
    DivisionLaw(z, y);
    assert (z / y + p) * y == z / y * y + p * y;
    DivisionUnique(r, y, z / y + p, z % y);
  }

  method Mod(x: Bits, y: Bits) returns (r: Bits)
    ensures IsZero(y) || IsInf(x) || IsNaN(x) || IsNaN(y) ==> r == UVNAN
    ensures Finite(x) && IsInf(y) ==> r == x
    ensures Finite(x) && Finite(y) && !IsZero(y) ==>
      && Finite(r)
      && Units(r) == Units(x) % Units(y) // exact
      && Neg(r) == Neg(x)
  {
    hide Units, Round, FScale, FSub, IsScaled;
    FieldsOf(y);
    if IsZero(y) || IsInf(x) || IsNaN(x) || IsNaN(y) {
      return UVNAN;
    }
    var y' := y;
    if FLess(y, 0) {
      y' := FNeg(y);
    }
    SignCleared(y, y');
    if Finite(y) {
      ZeroUnits(y);
    }

    var yfr, yexp := Frexp(y');
    var sign := false;
    r := x;
    if FLess(x, 0) {
      r := FNeg(x);
      sign := true;
    }
    SignCleared(x, r);

    while FLessEq(y', r)
      invariant Finite(r) && (Neg(r) ==> IsZero(r))
      invariant Finite(y) ==> Units(y) > 0 && Units(r) % Units(y) == Units(x) % Units(y)
      invariant IsInf(y) ==> Abs(r) == Abs(x)
      invariant Neg(r) == (Neg(x) && !sign)
      decreases Units(r)
    {
      AboveDivisor(r, y');
      var rfr, rexp := Frexp(r);
      RoundOfLoop(r, y', rfr, yfr, rexp, yexp);
      if FLess(rfr, yfr) {
        rexp := rexp - 1;
      }
      var s := Ldexp(y', rexp - yexp);
      r := FSub(r, s);
    }
    BelowDivisor(r, y');
    if sign {
      NegFields(r);
      r := FNeg(r);
    }
  }

  /** After the sign test only a zero can still be negative. */
  lemma SignCleared(x: Bits, x': Bits)
    requires !IsNaN(x) && x' == if FLess(x, 0) then FNeg(x) else x
    ensures Expo(x') == Expo(x) && Frac(x') == Frac(x) && Abs(x') == Abs(x)
    ensures Finite(x) ==> Units(x') == Units(x)
    ensures Neg(x') ==> IsZero(x')
    ensures FLess(x, 0) ==> Neg(x)
  {
    NegFields(x);
    FieldsFrom(false, 0, 0);
  }

  lemma AboveDivisor(r: Bits, y: Bits)
    requires Finite(r) && (Neg(r) ==> IsZero(r)) && !IsZero(y) && (Neg(y) ==> IsZero(y))
    requires FLessEq(y, r)
    ensures Finite(y) && !Neg(r) && !Neg(y) && !IsZero(r) && 0 < Units(y) <= Units(r)
  {
    FiniteIsPattern(r);
    FiniteIsPattern(y);
    UnitsMonotone(r, y);
    ZeroUnits(y);
  }

  lemma BelowDivisor(r: Bits, y: Bits)
    requires Finite(r) && (Neg(r) ==> IsZero(r)) && !IsZero(y) && (Neg(y) ==> IsZero(y))
    requires !IsNaN(y) && !FLessEq(y, r)
    ensures Finite(y) ==> Units(r) < Units(y) && Units(r) % Units(y) == Units(r)
  {
    if Finite(y) {
      UnitsMonotone(r, y);
      DivisionUnique(Units(r), Units(y), 0, Units(r));
    }
  }
}