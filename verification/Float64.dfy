/**
 The layout of an IEEE 754 double (math/bits.go) and its exact value. A finite
 double is an integer multiple of the least positive one, 2^-1074; Units is that
 multiple, so every statement about doubles is one about integers.
 */
module Float64 {
  import opened Powers

  type Bits = n: nat | n < 0x1_0000_0000_0000_0000

  const MASK := 0x7FF
  const BIAS := 1023
  const HIDDEN := 0x10_0000_0000_0000 // 1 << shift
  const SIGN := 0x8000_0000_0000_0000
  const UVNAN: Bits := 0x7FF8_0000_0000_0001
  const UVINF: Bits := 0x7FF0_0000_0000_0000
  const UVNEGINF: Bits := 0xFFF0_0000_0000_0000
  const UVONE: Bits := 0x3FF0_0000_0000_0000

  /** x << 1 on a uint64: the top bit is lost. */
  function Shl(x: Bits): (y: Bits)
    ensures !Neg(x) ==> y == 2 * x
  {
    (2 * x) % 0x1_0000_0000_0000_0000
  }

  /** int((x >> shift) & mask) */
  function Expo(x: Bits): (e: nat)
    ensures e <= MASK
  {
    (x / HIDDEN) % (MASK + 1)
  }

  /** x & fracMask */
  function Frac(x: Bits): (f: nat)
    ensures f < HIDDEN
  {
    x % HIDDEN
  }

  predicate Neg(x: Bits) {
    x >= SIGN
  }

  /** x &^ signMask */
  function Abs(x: Bits): Bits {
    if Neg(x) then x - SIGN else x
  }

  predicate Finite(x: Bits) {
    Expo(x) != MASK
  }

  predicate IsNaN(x: Bits) {
    Expo(x) == MASK && Frac(x) != 0
  }

  predicate IsInf(x: Bits) {
    Expo(x) == MASK && Frac(x) == 0
  }

  predicate IsZero(x: Bits) {
    Abs(x) == 0
  }

  /** x &^ (mask << shift) | e << shift */
  function WithExpo(x: Bits, e: nat): (y: Bits)
    requires e <= MASK
    ensures Expo(y) == e && Frac(y) == Frac(x) && Neg(y) == Neg(x)
  {
    FieldsOf(x);
    var y := (if Neg(x) then SIGN else 0) + e * HIDDEN + Frac(x);
    FieldsFrom(Neg(x), e, Frac(x));
    y
  }

  /** The value of an exponent field and a fraction, in units of 2^-1074. */
  function Value(e: nat, f: nat): nat {
    if e == 0 then f else (HIDDEN + f) * Pow2(e - 1)
  }

  /** |x| in units of 2^-1074. */
  function Units(x: Bits): nat
    requires Finite(x)
  {
    Value(Expo(x), Frac(x))
  }

  lemma FieldsOf(x: Bits)
    ensures x == (if Neg(x) then SIGN else 0) + Expo(x) * HIDDEN + Frac(x)
    ensures Abs(x) == Expo(x) * HIDDEN + Frac(x)
  {
    var h := x / HIDDEN;
    assert x == h * HIDDEN + Frac(x);
    assert h < 4096;
    assert Neg(x) <==> h >= 2048;
  }

  lemma FieldsFrom(neg: bool, e: nat, f: nat)
    requires e <= MASK && f < HIDDEN
    ensures
      var x: Bits := (if neg then SIGN else 0) + e * HIDDEN + f;
      Expo(x) == e && Frac(x) == f && Neg(x) == neg
  {
    var h := (if neg then 2048 else 0) + e;
    var x: Bits := (if neg then SIGN else 0) + e * HIDDEN + f;
    assert x == h * HIDDEN + f;
    assert x / HIDDEN == h;
  }

  /** Values of exponent e lie in [2^52, 2^53) * 2^(e-1); the subnormals below. */
  lemma ValueRange(e: nat, f: nat)
    requires f < HIDDEN
    ensures e > 0 ==> HIDDEN * Pow2(e - 1) <= Value(e, f)
    ensures Value(e, f) < HIDDEN * Pow2(e)
  {
    if e > 0 {
      MulStrict(HIDDEN + f, 2 * HIDDEN, Pow2(e - 1));
      MulMonotone(HIDDEN, HIDDEN + f, Pow2(e - 1));
    }
  }

  lemma ValueMonotone(a: nat, f: nat, b: nat, g: nat)
    requires f < HIDDEN && g < HIDDEN
    requires a < b || (a == b && f < g)
    ensures Value(a, f) < Value(b, g)
  {
    if a == b {
      if a != 0 {
        MulStrict(HIDDEN + f, HIDDEN + g, Pow2(a - 1));
      }
    } else {
      ValueRange(a, f);
      ValueRange(b, g);
      Pow2Monotone(a, b - 1);
      MulMonotone(Pow2(a), Pow2(b - 1), HIDDEN);
    }
  }

  /** The bits of a non-negative double order exactly as its value. */
  lemma UnitsMonotone(x: Bits, y: Bits)
    requires Finite(x) && Finite(y)
    ensures Abs(x) < Abs(y) <==> Units(x) < Units(y)
  {
    FieldsOf(x);
    FieldsOf(y);
    if Abs(x) < Abs(y) {
      ValueMonotone(Expo(x), Frac(x), Expo(y), Frac(y));
    } else if Abs(y) < Abs(x) {
      ValueMonotone(Expo(y), Frac(y), Expo(x), Frac(x));
    }
  }

  /** -x */
  function FNeg(x: Bits): Bits {
    if Neg(x) then x - SIGN else x + SIGN
  }

  lemma NegFields(x: Bits)
    ensures Expo(FNeg(x)) == Expo(x) && Frac(FNeg(x)) == Frac(x)
    ensures Neg(FNeg(x)) == !Neg(x) && Abs(FNeg(x)) == Abs(x)
    ensures Finite(x) ==> Units(FNeg(x)) == Units(x)
  {
    FieldsOf(x);
    FieldsFrom(!Neg(x), Expo(x), Frac(x));
  }
}
