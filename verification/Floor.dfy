/** math/floor.go: Round and RoundToEven, rounding to an integer by bit edits. */
module Floor {
  import opened Powers
  import opened Float64
  import opened Rounding

  const SHIFT := 52
  const HALF := 0x8_0000_0000_0000 // 1 << (shift - 1)

  /** The integer nearest to n/d, the larger of two equally near. */
  function HalfUp(n: nat, d: nat): nat
    requires d > 0
  {
    if 2 * (n % d) < d then n / d else n / d + 1
  }

  /** x >> k on a uint64, for any unsigned count. */
  function Shr(x: Bits, k: nat): Bits {
    ShrSmaller(x, Pow2(k));
    x / Pow2(k)
  }

  lemma ShrSmaller(x: nat, d: nat)
    requires d > 0
    ensures 0 <= x / d <= x && 0 <= x % d <= x
  {
    DivisionLaw(x, d);
    MulMonotone(1, d, x / d);
    MulMonotone(0, x / d, d);
  }

  /** x &^ (1<<p - 1) */
  function ClearLow(x: Bits, p: nat): Bits {
    ShrSmaller(x, Pow2(p));
    x - x % Pow2(p)
  }

  /** fracMask >> e is 1<<p - 1 with p = shift - e, and 0 once e reaches shift. */
  function FracBits(e: nat): nat {
    if e < SHIFT then SHIFT - e else 0
  }

  method RoundToEven(x: Bits) returns (z: Bits)
    ensures !Finite(x) ==> z == x
    ensures Finite(x) ==>
      && Finite(z) && Neg(z) == Neg(x)
      && Units(z) == HalfEven(Units(x), Pow2(1074)) * Pow2(1074)
  {
    hide Units, Pow2, HalfEven, Shr, ClearLow;
    var bits := x;
    var e := Expo(bits);
    if e >= BIAS {
      // from 1 on
      e := e - BIAS;
      var odd := if e <= SHIFT then Shr(bits, SHIFT - e) % 2 else 0; // a larger count has wrapped and shifts all out
      AddTruncateToEven(x, e, odd);
      bits := bits + Shr(HALF - 1 + odd, e);
      bits := ClearLow(bits, FracBits(e));
    } else if e == BIAS - 1 && Frac(bits) != 0 {
      // more than 1/2, less than 1
      bits := Signed(Neg(bits), UVONE); // +-1
      SmallValue(x);
      SignedUnits(Neg(x));
    } else {
      // the rest, subnormal numbers too
      bits := Signed(Neg(bits), 0); // +-0
      SmallValue(x);
      SignedUnits(Neg(x));
    }
    z := bits;
  }

  method Round(x: Bits) returns (z: Bits)
    ensures !Finite(x) ==> z == x
    ensures Finite(x) ==>
      && Finite(z) && Neg(z) == Neg(x)
      && Units(z) == HalfUp(Units(x), Pow2(1074)) * Pow2(1074)
  {
    hide Units, Pow2, HalfUp, Shr, ClearLow;
    var bits := x;
    var e := Expo(bits);
    if e < BIAS {
      // below 1, subnormal numbers too
      SmallValue(x);
      SignedUnits(Neg(x));
      bits := Signed(Neg(bits), if e == BIAS - 1 then UVONE else 0); // +-1 or +-0
    } else if e < BIAS + SHIFT {
      // from 1 on, with bits below the units
      e := e - BIAS;
      AddTruncateHalfUp(x, e);
      bits := bits + Shr(HALF, e);
      bits := ClearLow(bits, FracBits(e));
    } else {
      IntegerValue(x);
    }
    z := bits;
  }

  /** The bit trick of RoundToEven at and above 1: finite values round, the rest stay. */
  lemma AddTruncateToEven(x: Bits, e: nat, odd: nat)
    requires BIAS <= Expo(x) && e == Expo(x) - BIAS
    requires odd == if e <= SHIFT then Shr(x, SHIFT - e) % 2 else 0
    ensures x + Shr(HALF - 1 + odd, e) < 0x1_0000_0000_0000_0000
    ensures
      var z := ClearLow(x + Shr(HALF - 1 + odd, e), FracBits(e));
      && (!Finite(x) ==> z == x)
      && (Finite(x) ==>
        && Finite(z) && Neg(z) == Neg(x)
        && Units(z) == HalfEven(Units(x), Pow2(1074)) * Pow2(1074))
  {
    hide Units, Pow2, HalfEven, HalfUp, ClearLow;
    AddendShift(e);
    assert HALF - 1 + odd == if odd == 1 then HALF else HALF - 1;
    if e < SHIFT {
      WithinWord(x);
      OddBit(x, SHIFT - e);
      IntegerStep(x, SHIFT - e);
      AddAndTruncate(HIDDEN + Frac(x), Pow2(SHIFT - e), odd);
      LargeValue(x, SHIFT - e, Shr(HALF - 1 + odd, e));
    } else {
      IntegerValue(x);
    }
  }

  lemma AddTruncateHalfUp(x: Bits, e: nat)
    requires BIAS <= Expo(x) < BIAS + SHIFT && e == Expo(x) - BIAS
    ensures x + Shr(HALF, e) < 0x1_0000_0000_0000_0000
    ensures
      var z := ClearLow(x + Shr(HALF, e), FracBits(e));
      && Finite(z) && Neg(z) == Neg(x)
      && Units(z) == HalfUp(Units(x), Pow2(1074)) * Pow2(1074)
  {
    hide Units, Pow2, HalfEven, HalfUp, ClearLow;
    AddendShift(e);
    WithinWord(x);
    IntegerStep(x, SHIFT - e);
    AddAndTruncate(HIDDEN + Frac(x), Pow2(SHIFT - e), 0);
    LargeValue(x, SHIFT - e, Shr(HALF, e));
  }

  /** The addend: half a unit of the integer part, less one below an even integer. */
  lemma AddendShift(e: nat)
    ensures e < SHIFT ==>
      var d := Pow2(SHIFT - e); d % 2 == 0 && Shr(HALF, e) == d / 2 && Shr(HALF - 1, e) == d / 2 - 1
    ensures e >= SHIFT ==> Shr(HALF, e) == Shr(HALF - 1, e) == 0
    ensures Shr(HALF, e) <= HALF && Shr(HALF - 1, e) <= HALF
  {
    Pow2At52();
    if e < SHIFT {
      var h := Pow2(SHIFT - e - 1);
      Pow2Add(SHIFT - e - 1, e);
      DivisionUnique(HALF, Pow2(e), h, 0);
      assert (h - 1) * Pow2(e) == h * Pow2(e) - Pow2(e);
      DivisionUnique(HALF - 1, Pow2(e), h - 1, Pow2(e) - 1);
    } else {
      Pow2Monotone(SHIFT, e);
      DivisionUnique(HALF, Pow2(e), 0, HALF);
      DivisionUnique(HALF - 1, Pow2(e), 0, HALF - 1);
    }
  }

  lemma WithinWord(x: Bits)
    requires Expo(x) < BIAS + SHIFT
    ensures x + HALF < 0x1_0000_0000_0000_0000
  {
    FieldsOf(x);
  }

  /** Adding and truncating is rounding the 53-bit significand to a multiple of d. */
  lemma AddAndTruncate(m: nat, d: nat, odd: nat)
    requires d > 0 && d % 2 == 0
    ensures odd == m / d % 2 ==> (m + d / 2 - 1 + odd) / d == HalfEven(m, d)
    ensures (m + d / 2) / d == HalfUp(m, d)
  {
    DivisionLaw(m, d);
    var (q, r) := (m / d, m % d);
    assert (q + 1) * d == q * d + d;
    if odd == q % 2 {
      var a := r + d / 2 - 1 + odd;
      if a < d {
        DivisionUnique(m + d / 2 - 1 + odd, d, q, a);
      } else {
        DivisionUnique(m + d / 2 - 1 + odd, d, q + 1, a - d);
      }
    }
    var b := r + d / 2;
    if b < d {
      DivisionUnique(m + d / 2, d, q, b);
    } else {
      DivisionUnique(m + d / 2, d, q + 1, b - d);
    }
  }

  lemma ScaleBy(n: nat, d: nat, c: nat)
    requires d > 0 && c > 0
    ensures d * c > 0
    ensures HalfEven(n * c, d * c) == HalfEven(n, d)
    ensures HalfUp(n * c, d * c) == HalfUp(n, d)
  {
    DivisionLaw(n, d);
    var (q, r) := (n / d, n % d);
    MulStrict(0, d, c);
    MulMonotone(0, r, c);
    MulStrict(r, d, c);
    MulAssoc(q, d, c);
    DivisionUnique(n * c, d * c, q, r * c);
    MulAssoc(2, r, c);
    MulCancel(2 * r, d, c);
    MulCancel(d, 2 * r, c);
  }

  /** With p fraction bits, an integer is 2^p steps of the significand's last place. */
  lemma IntegerStep(x: Bits, p: nat)
    requires Finite(x) && Expo(x) >= BIAS && p == SHIFT - (Expo(x) - BIAS)
    ensures
      var (m, d) := (HIDDEN + Frac(x), Pow2(p));
      && HalfEven(Units(x), Pow2(1074)) == HalfEven(m, d)
      && HalfUp(Units(x), Pow2(1074)) == HalfUp(m, d)
      && Pow2(1074) == d * Pow2(Expo(x) - 1)
  {
    hide HalfEven, HalfUp, Pow2;
    Pow2Add(p, Expo(x) - 1);
    ScaleBy(HIDDEN + Frac(x), Pow2(p), Pow2(Expo(x) - 1));
  }

  /** Everything above the significand is a multiple of 2^p, an even one since the bias is odd. */
  lemma AboveSignificand(x: Bits, p: nat) returns (c: nat)
    requires BIAS <= Expo(x) && p == SHIFT - (Expo(x) - BIAS)
    ensures x == c * Pow2(p) + (HIDDEN + Frac(x)) && c % 2 == 0
  {
    FieldsOf(x);
    var top := (if Neg(x) then 2048 else 0) + Expo(x) - 1;
    var e := Expo(x) - BIAS;
    Pow2At52();
    Pow2Add(e, p);
    c := top * Pow2(e);
    MulAssoc(top, Pow2(e), Pow2(p));
    EvenProduct(top, e);
  }

  lemma EvenProduct(t: nat, e: nat)
    requires e == 0 ==> t % 2 == 0
    ensures (t * Pow2(e)) % 2 == 0
  {
    if e > 0 {
      MulAssoc(t, 2, Pow2(e - 1));
      assert t * Pow2(e) == 2 * (t * Pow2(e - 1));
    }
  }

  /** In [1, 2) the bit read is the exponent field's lowest, and still the integer's parity. */
  lemma OddBit(x: Bits, p: nat)
    requires BIAS <= Expo(x) && p == SHIFT - (Expo(x) - BIAS)
    ensures x / Pow2(p) % 2 == (HIDDEN + Frac(x)) / Pow2(p) % 2
  {
    var c := AboveSignificand(x, p);
    hide *;
    EvenMultipleAbove(x, c, HIDDEN + Frac(x), Pow2(p));
  }

  lemma EvenMultipleAbove(x: int, c: int, m: int, d: int)
    requires d > 0 && x == c * d + m && c % 2 == 0
    ensures x / d % 2 == m / d % 2
  {
    DivisionLaw(m, d);
    assert (c + m / d) * d == c * d + m / d * d;
    DivisionUnique(x, d, c + m / d, m % d);
    EvenPlus(c, m / d);
  }

  lemma EvenPlus(c: int, q: int)
    requires c % 2 == 0
    ensures (c + q) % 2 == q % 2
  {
  }

  lemma SmallValue(x: Bits)
    requires Expo(x) < BIAS
    ensures HalfEven(Units(x), Pow2(1074)) == if Expo(x) == BIAS - 1 && Frac(x) != 0 then 1 else 0
    ensures HalfUp(Units(x), Pow2(1074)) == if Expo(x) == BIAS - 1 then 1 else 0
  {
    hide Pow2, Units;
    var d := Pow2(1074);
    HalfOf(1073);
    if Expo(x) == BIAS - 1 {
      FromHalf(x);
    } else {
      BelowHalf(x);
    }
    DivisionUnique(Units(x), d, 0, Units(x));
  }

  lemma HalfOf(n: nat)
    ensures Pow2(n + 1) == 2 * Pow2(n) && Pow2(n) > 0
  {
  }

  /** At least 1/2, but less than 1. */
  lemma FromHalf(x: Bits)
    requires Expo(x) == BIAS - 1
    ensures if Frac(x) == 0 then Units(x) == Pow2(1073) else Pow2(1073) < Units(x)
    ensures Units(x) < 2 * Pow2(1073)
  {
    hide Pow2;
    Pow2At52();
    Pow2Add(52, 1021);
    MulStrict(HIDDEN + Frac(x), 2 * HIDDEN, Pow2(1021));
    if Frac(x) != 0 {
      MulStrict(HIDDEN, HIDDEN + Frac(x), Pow2(1021));
    }
    MulAssoc(HIDDEN, 2, Pow2(1021));
  }

  lemma BelowHalf(x: Bits)
    requires Expo(x) < BIAS - 1
    ensures Units(x) < Pow2(1073)
  {
    hide Pow2;
    Pow2At52();
    Pow2Add(52, 1021);
    ValueRange(Expo(x), Frac(x));
    Pow2Monotone(Expo(x), 1021);
    MulMonotone(Pow2(Expo(x)), Pow2(1021), HIDDEN);
  }

  lemma SignedUnits(neg: bool)
    ensures
      var (one, zero) := (Signed(neg, UVONE), Signed(neg, 0));
      && Finite(one) && Neg(one) == neg && Units(one) == Pow2(1074)
      && Finite(zero) && Neg(zero) == neg && Units(zero) == 0
  {
    hide Pow2;
    FieldsFrom(neg, BIAS, 0);
    FieldsFrom(neg, 0, 0);
    Pow2At52();
    Pow2Add(52, 1022);
  }

  /** From 2^52 up every double is an integer. */
  lemma IntegerValue(x: Bits)
    requires Expo(x) >= BIAS + SHIFT
    ensures ClearLow(x, 0) == x
    ensures Finite(x) ==>
      && Units(x) == HalfEven(Units(x), Pow2(1074)) * Pow2(1074)
      && Units(x) == HalfUp(Units(x), Pow2(1074)) * Pow2(1074)
  {
    assert Pow2(0) == 1;
    hide Pow2;
    if Finite(x) {
      var (m, k, d) := (HIDDEN + Frac(x), Expo(x) - 1 - 1074, Pow2(1074));
      Pow2Add(k, 1074);
      MulAssoc(m, Pow2(k), d);
      DivisionUnique(Units(x), d, m * Pow2(k), 0);
    }
  }

  /** Clearing the fraction of x + a leaves the truncated significand as the value, carry included. */
  lemma LargeValue(x: Bits, p: nat, a: nat)
    requires Finite(x) && Expo(x) >= BIAS && p == SHIFT - (Expo(x) - BIAS) && p > 0
    requires a <= Pow2(p) / 2 && x + a < 0x1_0000_0000_0000_0000
    ensures
      var (m, d, z) := (HIDDEN + Frac(x), Pow2(p), ClearLow(x + a, p));
      && Finite(z) && Neg(z) == Neg(x)
      && Units(z) == (m + a) / d * Pow2(1074)
  {
    hide Pow2, ClearLow, Value;
    var (m, d) := (HIDDEN + Frac(x), Pow2(p));
    Truncated(x, p, a);
    QuotientRange(m, a, p);
    Reassembled(x, p, (m + a) / d);
  }

  lemma Truncated(x: Bits, p: nat, a: nat)
    requires BIAS <= Expo(x) && p == SHIFT - (Expo(x) - BIAS)
    requires x + a < 0x1_0000_0000_0000_0000
    ensures
      var (m, d) := (HIDDEN + Frac(x), Pow2(p));
      ClearLow(x + a, p) == x - m + (m + a) / d * d
  {
    hide Pow2;
    var (m, d) := (HIDDEN + Frac(x), Pow2(p));
    var c := AboveSignificand(x, p);
    var q := (m + a) / d;
    DivisionLaw(m + a, d);
    AddTimes(c, q, d);
    DivisionUnique(x + a, d, c + q, (m + a) % d);
  }

  lemma Reassembled(x: Bits, p: nat, q: nat)
    requires Finite(x) && BIAS <= Expo(x) && p == SHIFT - (Expo(x) - BIAS)
    requires HIDDEN <= q * Pow2(p) <= 2 * HIDDEN
    ensures
      var z := x - (HIDDEN + Frac(x)) + q * Pow2(p);
      && 0 <= z < 0x1_0000_0000_0000_0000
      && Finite(z) && Neg(z) == Neg(x)
      && Units(z) == q * Pow2(1074)
  {
    hide Pow2;
    var (n, E) := (q * Pow2(p), Expo(x));
    FieldsOf(x);
    Pow2Add(p, E - 1);
    MulAssoc(q, Pow2(p), Pow2(E - 1));
    if n < 2 * HIDDEN {
      FieldsFrom(Neg(x), E, n - HIDDEN);
    } else {
      FieldsFrom(Neg(x), E + 1, 0);
      DoublePower(E);
    }
  }

  lemma DoublePower(e: nat)
    requires e > 0
    ensures HIDDEN * Pow2(e) == 2 * HIDDEN * Pow2(e - 1)
  {
  }

  lemma QuotientRange(m: nat, a: nat, p: nat)
    requires HIDDEN <= m < 2 * HIDDEN && 0 < p <= SHIFT && a <= Pow2(p) / 2
    ensures HIDDEN <= (m + a) / Pow2(p) * Pow2(p) <= 2 * HIDDEN
  {
    hide Pow2;
    var d := Pow2(p);
    Pow2At52();
    Pow2Add(SHIFT - p, p);
    var h := Pow2(SHIFT - p); // HIDDEN == h * d
    MulAssoc(2, h, d);
    DivisionBounds(m + a, d, h, 2 * h);
    MulMonotone(h, (m + a) / d, d);
    MulMonotone((m + a) / d, 2 * h, d);
  }
}