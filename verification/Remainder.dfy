/** math/remainder.go: the IEEE 754 remainder built on Mod. */
module Remainder {
  import opened Powers
  import opened Float64
  import opened Rounding
  import Mod

  const TINY: Bits := 0x20_0000_0000_0000 // 4.45014771701440276618e-308
  const HALF_MAX: Bits := 0x7FDF_FFFF_FFFF_FFFF // MaxFloat64 / 2
  const MAX: Bits := 0x7FEF_FFFF_FFFF_FFFF

  /** v - n*d for the integer n nearest to v/d, the even one of two. */
  function NearestRemainder(v: int, d: nat): int
    requires d > 0
  {
    NearestOf(v / d, v % d, d)
  }

  /** The remainder r of a quotient q, or one divisor less if the next quotient is nearer. */
  function NearestOf(q: int, r: nat, d: nat): int {
    if 2 * r < d || (2 * r == d && q % 2 == 0) then r else r - d
  }

  /** The quotient left out is an integer no other integer beats; ties go to even. */
  lemma NearestQuotient(v: int, d: nat) returns (n: int)
    requires d > 0
    ensures v == n * d + NearestRemainder(v, d)
    ensures forall k: int {:trigger k * d} ::
      Dist(v, n * d) <= Dist(v, k * d) && (k != n && Dist(v, n * d) == Dist(v, k * d) ==> n % 2 == 0)
  {
    DivisionLaw(v, d);
    var q := v / d;
    n := if NearestRemainder(v, d) == v % d then q else q + 1;
    AddTimes(q, 1, d);
    forall k: int
      ensures Dist(v, n * d) <= Dist(v, k * d)
      ensures k != n && Dist(v, n * d) == Dist(v, k * d) ==> n % 2 == 0
    {
      if k < q {
        MulMonotone(k + 1, q, d);
        AddTimes(k, 1, d);
      } else if k > q + 1 {
        MulMonotone(q + 2, k, d);
        AddTimes(q, 2, d);
      }
    }
  }

  lemma RemainderIsOdd(v: int, d: nat)
    requires d > 0
    ensures NearestRemainder(-v, d) == -NearestRemainder(v, d)
  {
    DivisionLaw(v, d);
    var (q, r) := (v / d, v % d);
    AddTimes(-q, -1, d);
    AddTimes(q, -q, d);
    if r == 0 {
      DivisionUnique(-v, d, -q, 0);
      assert NearestOf(q, 0, d) == 0 && NearestOf(-q, 0, d) == 0;
    } else {
      DivisionUnique(-v, d, -q - 1, d - r);
      Mirrored(q, r, d);
    }
    hide NearestOf;
  }

  lemma Mirrored(q: int, r: nat, d: nat)
    requires 0 < r < d
    ensures NearestOf(-q - 1, d - r, d) == -NearestOf(q, r, d)
  {
  }

  /** What is left of x in [0, 2y) after at most two subtractions of y. */
  function Folded(x: nat, y: nat): int {
    if 2 * x <= y then x else if 2 * (x - y) < y then x - y else x - 2 * y
  }

  /** Dropping an even multiple of y first changes nothing. */
  lemma FoldedIsNearest(x: nat, y: nat)
    requires y > 0
    ensures Folded(x % (2 * y), y) == NearestRemainder(x, y)
  {
    DivisionLaw(x, 2 * y);
    var (q, r) := (x / (2 * y), x % (2 * y));
    MulAssoc(q, 2, y);
    if r < y {
      DivisionUnique(x, y, 2 * q, r);
    } else {
      AddTimes(2 * q, 1, y);
      DivisionUnique(x, y, 2 * q + 1, r - y);
    }
  }

  /** Halve or double to compare with y/2, and subtract y up to twice. */
  method Fold(x0: Bits, y: Bits) returns (x: Bits)
    requires Finite(x0) && Finite(y) && !Neg(y) && (Neg(x0) ==> IsZero(x0))
    requires 0 < Units(y) && Units(x0) < 2 * Units(y)
    ensures Finite(x) && Val(x) == Folded(Units(x0), Units(y))
    ensures Val(x) == 0 ==> Neg(x) == Neg(x0)
  {
    hide Units, Round, RoundValue, FScale, FAdd, FSub;
    x := x0;
    ZeroUnits(x);
    if FLess(y, TINY) {
      CompareByValue(y, TINY);
      TinyUnits();
      DoubleExact(x, TINY);
      CompareByValue(y, FAdd(x, x));
      if FLess(y, FAdd(x, x)) {
        CloseDifferenceExact(x, y);
        x := FSub(x, y);
        DoubleExact(x, TINY);
        CompareByValue(y, FAdd(x, x));
        if FLessEq(y, FAdd(x, x)) {
          CloseDifferenceExact(x, y);
          x := FSub(x, y);
        }
      }
    } else {
      CompareByValue(y, TINY);
      HalfExact(y);
      var yHalf := FScale(y, -1); // 0.5 * y
      CompareByValue(yHalf, x);
      if FLess(yHalf, x) {
        CloseDifferenceExact(x, y);
        x := FSub(x, y);
        CompareByValue(yHalf, x);
        if FLessEq(yHalf, x) {
          CloseDifferenceExact(x, y);
          x := FSub(x, y);
        }
      }
    }
  }

  lemma TinyUnits()
    ensures Finite(TINY) && !Neg(TINY) && Units(TINY) == 2 * HIDDEN
    ensures Finite(MAX) && !Neg(MAX) && Units(MAX) >= 8 * Units(TINY)
    ensures Finite(HALF_MAX) && !Neg(HALF_MAX) && 2 * Units(HALF_MAX) == Units(MAX)
    ensures forall x: Bits {:trigger Units(x)} | Finite(x) :: Units(x) <= Units(MAX)
  {
    hide Units, Pow2, Finite, Neg;
    TinyIs();
    LargestIs();
    LargestIsLarge();
    MaxUnits();
  }

  lemma LargestIsLarge()
    ensures Units(MAX) >= 16 * (2 * HIDDEN - 1)
  {
    hide Units, Pow2;
    LargestIs();
    Pow2Large();
    MulMonotone(16, Pow2(0x7FD), 2 * HIDDEN - 1);
  }

  lemma TinyIs()
    ensures Finite(TINY) && !Neg(TINY) && Units(TINY) == 2 * HIDDEN
  {
    FieldsFrom(false, 2, 0);
  }

  lemma LargestIs()
    ensures Finite(MAX) && !Neg(MAX) && Units(MAX) == (2 * HIDDEN - 1) * Pow2(0x7FD)
    ensures Finite(HALF_MAX) && !Neg(HALF_MAX) && 2 * Units(HALF_MAX) == Units(MAX)
  {
    hide Pow2;
    FieldsFrom(false, 0x7FD, HIDDEN - 1);
    FieldsFrom(false, 0x7FE, HIDDEN - 1);
    MulAssoc(2 * HIDDEN - 1, 2, Pow2(0x7FC));
    Pow2Next(0x7FC);
  }

  lemma Pow2Large()
    ensures Pow2(0x7FD) >= 16
  {
    Pow2Monotone(4, 0x7FD);
    assert Pow2(4) == 16;
  }

  lemma Pow2Next(n: nat)
    ensures Pow2(n + 1) == 2 * Pow2(n)
  {
  }

  lemma MaxUnits()
    ensures Finite(MAX)
    ensures forall x: Bits {:trigger Units(x)} | Finite(x) :: Units(x) <= Units(MAX)
  {
    FieldsFrom(false, 0x7FE, HIDDEN - 1);
    hide Pow2, Units;
    forall x: Bits {:trigger Units(x)} | Finite(x)
      ensures Units(x) <= Units(MAX)
    {
      FieldsOf(x);
      UnitsMonotone(MAX, x);
    }
  }

  /** x + x is exact while it stays in range. */
  lemma DoubleExact(x: Bits, y: Bits)
    requires Finite(x) && Finite(y) && 2 * Units(x) <= 8 * Units(y) && y == TINY
    ensures Finite(FAdd(x, x)) && Val(FAdd(x, x)) == 2 * Val(x)
  {
    TinyUnits();
    DoubleInRange(x);
  }

  lemma DoubleInRange(x: Bits)
    requires Finite(x) && Finite(MAX) && 2 * Units(x) <= Units(MAX)
    ensures Finite(FAdd(x, x)) && Val(FAdd(x, x)) == 2 * Val(x)
    ensures Neg(FAdd(x, x)) == Neg(x)
  {
    hide Units, Pow2, RoundValue;
    if Units(x) == 0 {
      ZeroSum(Neg(x));
    } else {
      UnitsByGrain(x);
      Pow2Add(1, Grain(x));
      Pow2One();
      MulAssoc(Coefficient(x), 2, Pow2(Grain(x)));
      SumExact(2 * Val(x), Neg(x), Coefficient(x), Grain(x) + 1);
    }
  }

  lemma ZeroSum(neg: bool)
    ensures Finite(RoundValue(0, neg)) && Val(RoundValue(0, neg)) == 0 && Neg(RoundValue(0, neg)) == neg
  {
    FieldsFrom(neg, 0, 0);
  }

  lemma SumExact(v: int, neg: bool, m: nat, g: nat)
    requires v != 0 && m < 2 * HIDDEN && Dist(v, 0) == m * Pow2(g)
    requires Finite(MAX) && Dist(v, 0) <= Units(MAX)
    ensures
      var z := RoundValue(v, neg);
      Finite(z) && Val(z) == v && Neg(z) == (v < 0)
  {
    hide Units, Pow2, Nearest;
    RoundMultiple(v < 0, m, g, MAX);
  }

  /** 0.5 * y is exact from Tiny up. */
  lemma HalfExact(y: Bits)
    requires Finite(y) && !Neg(y) && Val(y) >= Val(TINY)
    ensures Finite(FScale(y, -1)) && !Neg(FScale(y, -1)) && 2 * Val(FScale(y, -1)) == Val(y)
  {
    hide Round;
    UnitsMonotone(y, TINY);
    FieldsOf(y);
    FieldsFrom(false, 2, 0);
    var half := y - HIDDEN;
    FieldsFrom(false, Expo(y) - 1, Frac(y));
    HalvedUnits(y, half);
    RoundExact(false, Units(y), 1, half);
  }

  lemma HalvedUnits(y: Bits, half: Bits)
    requires Finite(y) && Finite(half) && Expo(half) > 0
    requires Expo(y) == Expo(half) + 1 && Frac(y) == Frac(half)
    ensures Units(y) == 2 * Units(half) && Units(y) == Units(half) * Pow2(1)
  {
    MulAssoc(2, HIDDEN + Frac(y), Pow2(Expo(y) - 2));
    Pow2One();
  }

  /** The sign of x carries over to its remainder, and both reductions agree. */
  lemma SignedFold(v: int, y: nat)
    requires y > 0
    ensures NearestRemainder(v, y) == if v < 0 then -Folded(-v % (2 * y), y) else Folded(v % (2 * y), y)
  {
    hide NearestRemainder, Folded;
    if v < 0 {
      FoldedIsNearest(-v, y);
      RemainderIsOdd(v, y);
    } else {
      FoldedIsNearest(v, y);
    }
  }

  lemma EqualMagnitudes(v: int, y: nat)
    requires y > 0 && (v == y || v == 0 - y)
    ensures NearestRemainder(v, y) == 0
  {
    DivisionUnique(v, y, if v == y then 1 else -1, 0);
  }

  /** The divisor is doubled only when that is exact; otherwise x is below 2y already. */
  lemma DoublingGuard(x: Bits, y: Bits)
    requires Finite(x) && Finite(y) && !Neg(y) && !IsZero(y)
    ensures 0 < Units(y)
    ensures FLessEq(y, HALF_MAX) ==> 2 * Units(y) <= Units(MAX)
    ensures !FLessEq(y, HALF_MAX) ==> Units(x) < 2 * Units(y) && Units(x) % (2 * Units(y)) == Units(x)
  {
    hide Units;
    TinyUnits();
    ZeroUnits(y);
    CompareByValue(y, HALF_MAX);
    if !FLessEq(y, HALF_MAX) {
      DivisionUnique(Units(x), 2 * Units(y), 0, Units(x));
    }
  }

  /** The reduction, for non-negative operands. */
  method Reduce(x0: Bits, y: Bits) returns (x: Bits)
    requires Finite(x0) && Finite(y) && !Neg(y) && !IsZero(y) && (Neg(x0) ==> IsZero(x0))
    ensures Units(y) > 0 && Finite(x)
    ensures Val(x) == Folded(Units(x0) % (2 * Units(y)), Units(y))
    ensures Val(x) == 0 ==> Neg(x) == Neg(x0)
  {
    hide Units, FAdd, Folded;
    x := x0;
    DoublingGuard(x, y);
    if FLessEq(y, HALF_MAX) {
      DoubleInRange(y);
      ZeroUnits(FAdd(y, y));
      x := Mod.Mod(x, FAdd(y, y)); // below 2y from here on
      DivisionLaw(Units(x0), 2 * Units(y));
      ZeroUnits(x0);
      ZeroUnits(x);
      ZeroModulus(2 * Units(y));
    }
    x := Fold(x, y);
  }

  lemma ZeroModulus(d: nat)
    requires d > 0
    ensures 0 % d == 0
  {
  }

  /** The remainder of finite doubles, exactly. */
  function ExactRemainder(x: Bits, y: Bits): int
    requires Finite(x) && Finite(y) && !IsZero(y)
  {
    hide Units;
    ZeroUnits(y);
    NearestRemainder(Val(x), Units(y))
  }

  method Remainder(x0: Bits, y0: Bits) returns (x: Bits)
    ensures IsNaN(x0) || IsNaN(y0) || IsInf(x0) || IsZero(y0) ==> x == UVNAN
    ensures Finite(x0) && IsInf(y0) ==> x == x0
    ensures Finite(x0) && Finite(y0) && !IsZero(y0) ==>
      && Finite(x)
      && Val(x) == ExactRemainder(x0, y0)
      && (Val(x) == 0 ==> Neg(x) == (Neg(x0) && Abs(x0) != Abs(y0)))
  {
    hide Units, NearestRemainder, NearestOf, Folded, RoundValue;
    var y := y0;
    x := x0;
    FieldsOf(y0);
    // the arguments without a finite answer
    if IsNaN(x) || IsNaN(y) || IsInf(x) || IsZero(y) {
      return UVNAN;
    }
    if IsInf(y) {
      return x;
    }
    var sign := false;
    if FLess(x, 0) {
      x := FNeg(x);
      sign := true;
    }
    Mod.SignCleared(x0, x);
    if FLess(y, 0) {
      y := FNeg(y);
    }
    Mod.SignCleared(y0, y);
    ZeroUnits(y);
    if FEqual(x, y) {
      SameMagnitude(x0, y0);
      return 0;
    }
    x := Reduce(x, y);
    SignedFold(Val(x0), Units(y0));
    ZeroUnits(x0);
    NegFields(x);
    if sign {
      x := FNeg(x);
    }
  }

  lemma SameMagnitude(x: Bits, y: Bits)
    requires Finite(x) && Finite(y) && Abs(x) == Abs(y) && Units(y) > 0
    ensures NearestRemainder(Val(x), Units(y)) == 0
    ensures Finite(0) && Val(0) == 0 && !Neg(0)
  {
    hide Units, NearestRemainder;
    UnitsMonotone(x, y);
    UnitsMonotone(y, x);
    EqualMagnitudes(Val(x), Units(y));
    FieldsFrom(false, 0, 0);
    ZeroUnits(0);
  }
}
