/** IEEE 754 doubles as 64-bit patterns: the class Double. A mask or a shift of the pattern is a quotient or
    a remainder by a power of two; magnitudes are exact integers, in units of 2^-1074. */
module Doubles {
  import opened Arithmetic
  import opened Rounding

  const TWO_11: nat := 0x800
  const TWO_63: nat := 0x8000_0000_0000_0000
  const TWO_64: nat := 0x1_0000_0000_0000_0000
  const INFINITY: nat := 0x7FF0_0000_0000_0000
  const EXPONENT_BIAS: int := 0x3FF + 52
  const DENORMAL_EXPONENT: int := 1 - EXPONENT_BIAS
  const MAX_EXPONENT: int := 0x7FF - EXPONENT_BIAS

  type Pattern = d: int | 0 <= d < TWO_64

  function BiasedExponent(d: Pattern): nat {
    d / TWO_52 % TWO_11
  }

  function Fraction(d: Pattern): nat {
    d % TWO_52
  }

  predicate IsDenormal(d: Pattern) {
    BiasedExponent(d) == 0
  }

  /** Infinity and NaN. */
  predicate IsSpecial(d: Pattern) {
    BiasedExponent(d) == 0x7FF
  }

  predicate IsNan(d: Pattern) {
    IsSpecial(d) && Fraction(d) != 0
  }

  function Sign(d: Pattern): int {
    if d / TWO_63 == 0 then 1 else -1
  }

  function Exponent(d: Pattern): (e: int)
    ensures DENORMAL_EXPONENT <= e <= MAX_EXPONENT
  {
    if IsDenormal(d) then DENORMAL_EXPONENT else BiasedExponent(d) - EXPONENT_BIAS
  }

  function Significand(d: Pattern): (f: nat)
    ensures f < TWO_53
    ensures f < TWO_52 <==> IsDenormal(d)
  {
    if IsDenormal(d) then Fraction(d) else Fraction(d) + TWO_52
  }

  /** |d| * 2^1074; an infinity counts as 2^1024, where the next binade would start. */
  function Magnitude(d: Pattern): nat {
    Scaled(Significand(d), Exponent(d) - DENORMAL_EXPONENT)
  }

  /** Sign(d) * x. */
  function WithSign(d: Pattern, x: int): int {
    if Sign(d) > 0 then x else -x
  }

  function SignedMagnitude(d: Pattern): int {
    WithSign(d, Magnitude(d))
  }

  /** The weight of the last bit of the significand. */
  function Ulp(d: Pattern): nat {
    Pow(2, Exponent(d) - DENORMAL_EXPONENT)
  }

  /** Patterns whose values are known: zero, the least denormal, the least normal, one, two and the largest
      finite double. */
  lemma {:induction false} KnownFields()
    ensures Significand(0) == 0 && Exponent(0) == -1074
    ensures Significand(1) == 1 && Exponent(1) == -1074
    ensures Significand(0x0010_0000_0000_0000) == TWO_52 && Exponent(0x0010_0000_0000_0000) == -1074
    ensures Significand(0x3FF0_0000_0000_0000) == TWO_52 && Exponent(0x3FF0_0000_0000_0000) == -52
    ensures Significand(0x4000_0000_0000_0000) == TWO_52 && Exponent(0x4000_0000_0000_0000) == -51
    ensures Significand(0x7FEF_FFFF_FFFF_FFFF) == TWO_53 - 1 && Exponent(0x7FEF_FFFF_FFFF_FFFF) == 971
    ensures !IsSpecial(0x7FEF_FFFF_FFFF_FFFF) && IsSpecial(0x7FF0_0000_0000_0000) && IsNan(0x7FF8_0000_0000_0000)
  {
  }

  /** How many significant bits a double near 2^order has. */
  function SignificandSizeForOrderOfMagnitude(order: int): int {
    if order >= DENORMAL_EXPONENT + 53 then 53
    else if order <= DENORMAL_EXPONENT then 0
    else order - DENORMAL_EXPONENT
  }

  /** It is the length of the significand of every finite double of that order; zero has no bits. */
  lemma {:induction false} SignificandSizeIsLength(d: Pattern, p: nat)
    requires !IsSpecial(d)
    requires Significand(d) < Pow(2, p) && (p > 0 ==> Pow(2, p - 1) <= Significand(d))
    ensures SignificandSizeForOrderOfMagnitude(Exponent(d) + p) == p
  {
    PowersOfTwo();
    if p > 53 { PowMono(2, 53, p - 1); }
    if p <= 52 { PowMono(2, p, 52); }
    if p == 53 { assert Significand(d) >= TWO_52; }
  }

  /** How the fields move from one pattern to the next. */
  lemma {:induction false} NextFields(d: Pattern)
    requires d < INFINITY
    ensures Fraction(d) + 1 < TWO_52 ==>
              BiasedExponent(d + 1) == BiasedExponent(d) && Fraction(d + 1) == Fraction(d) + 1
    ensures Fraction(d) + 1 == TWO_52 ==> BiasedExponent(d + 1) == BiasedExponent(d) + 1 && Fraction(d + 1) == 0
  {
  }

  /** The next pattern is one unit in the last place further from zero. */
  lemma {:induction false} NextMagnitude(d: Pattern)
    requires d < INFINITY
    ensures Magnitude(d + 1) == Magnitude(d) + Ulp(d)
  {
    var f, x := Significand(d), Exponent(d) - DENORMAL_EXPONENT;
    NextFields(d);
    ScaledIsProduct(f, x);
    ScaledIsProduct(f + 1, x);
    assert Scaled(f + 1, x) == Scaled(f, x) + Pow(2, x);
    if f + 1 == TWO_53 {
      ScaledCarry(x);
    }
  }

  /** The order of the patterns of non-negative doubles is the order of their values. */
  lemma {:induction false} Increasing(a: Pattern, b: Pattern)
    requires a < b <= INFINITY
    ensures Magnitude(a) < Magnitude(b)
    decreases b - a
  {
    NextMagnitude(a);
    if a + 1 < b {
      Increasing(a + 1, b);
    }
  }

  lemma {:induction false} MagnitudeInjective(a: Pattern, b: Pattern)
    requires a <= INFINITY && b <= INFINITY && Magnitude(a) == Magnitude(b)
    ensures a == b
  {
    if a < b { Increasing(a, b); }
    if b < a { Increasing(b, a); }
  }

  lemma {:induction false} SignBit(d: Pattern)
    requires d < TWO_63
    ensures Sign(d) == 1 && Sign(d + TWO_63) == -1
    ensures BiasedExponent(d + TWO_63) == BiasedExponent(d)
    ensures Fraction(d + TWO_63) == Fraction(d)
    ensures Magnitude(d + TWO_63) == Magnitude(d)
    ensures IsNan(d) <==> d > INFINITY
  {
  }

  lemma {:induction false} MagnitudePositive(d: Pattern)
    requires 0 < d <= INFINITY
    ensures Magnitude(d) > 0 && Magnitude(0) == 0
  {
    ScaledIsProduct(0, 0);
    Increasing(0, d);
  }

  /** The next greater double, and infinity for infinity. */
  function NextDouble(d: Pattern): Pattern {
    if d == INFINITY then INFINITY
    else if Sign(d) < 0 && Significand(d) == 0 then 0
    else if Sign(d) < 0 then d - 1
    else d + 1
  }

  const MINUS_ZERO: Pattern := TWO_63

  /** Every pattern that is not a NaN is a magnitude with a sign in front. */
  lemma {:induction false} SplitSign(d: Pattern, m: Pattern)
    requires !IsNan(d) && m == d % TWO_63
    ensures m <= INFINITY && Magnitude(m) == Magnitude(d)
    ensures d < TWO_63 ==> SignedMagnitude(d) == Magnitude(m)
    ensures d >= TWO_63 ==> SignedMagnitude(d) + Magnitude(m) == 0
    ensures Significand(d) == Significand(m)
    ensures Sign(d) == if d < TWO_63 then 1 else -1
  {
    SignBit(m);
  }

  /** d < n are consecutive in value, as seen from x. */
  ghost predicate Consecutive(d: Pattern, n: Pattern, x: Pattern) {
    && SignedMagnitude(d) < SignedMagnitude(n)
    && (SignedMagnitude(x) <= SignedMagnitude(d) || SignedMagnitude(n) <= SignedMagnitude(x))
  }

  lemma {:induction false} StepUp(m: Pattern, x: Pattern)
    requires m < INFINITY && !IsNan(x)
    ensures Consecutive(m, m + 1, x)
  {
    SplitSign(m, m);
    SplitSign(m + 1, m + 1);
    SplitSign(x, x % TWO_63);
    OrderedStep(m, x % TWO_63);
  }

  lemma {:induction false} StepDown(m: Pattern, x: Pattern)
    requires m < INFINITY && !IsNan(x)
    ensures Consecutive(m + 1 + TWO_63, m + TWO_63, x)
  {
    SignBit(m);
    SignBit(m + 1);
    SplitSign(x, x % TWO_63);
    OrderedStep(m, x % TWO_63);
  }

  /** No double lies strictly between a double and its NextDouble; the step from -0 to +0 is the only one
      that does not increase the value, besides the fixed point at infinity. */
  lemma {:induction false} NextDoubleIsSuccessor(d: Pattern, x: Pattern)
    requires !IsNan(d) && !IsNan(x)
    ensures !IsNan(NextDouble(d))
    ensures d != MINUS_ZERO && d != INFINITY ==> Consecutive(d, NextDouble(d), x)
    ensures d == INFINITY ==> NextDouble(d) == INFINITY && SignedMagnitude(x) <= SignedMagnitude(INFINITY)
    ensures d == MINUS_ZERO ==> NextDouble(d) == 0 && SignedMagnitude(d) == SignedMagnitude(0)
  {
    NextPattern(d);
    if d < INFINITY {
      StepUp(d, x);
    } else if d > MINUS_ZERO {
      StepDown(d - TWO_63 - 1, x);
    } else if d == INFINITY {
      SplitSign(x, x % TWO_63);
      SplitSign(INFINITY, INFINITY);
      BelowInfinity(x % TWO_63);
    } else {
      SignBit(0);
      MagnitudePositive(1);
    }
  }

  lemma {:induction false} BelowInfinity(y: Pattern)
    requires y <= INFINITY
    ensures Magnitude(y) <= Magnitude(INFINITY)
  {
    if y < INFINITY { Increasing(y, INFINITY); }
  }

  lemma {:induction false} PatternRange(d: Pattern)
    requires !IsNan(d)
    ensures d <= INFINITY || TWO_63 <= d <= INFINITY + TWO_63
    ensures Sign(d) == if d < TWO_63 then 1 else -1
    ensures Significand(d) == 0 <==> d == 0 || d == MINUS_ZERO
  {
    var m := d % TWO_63;
    SplitSign(d, m);
    if m != 0 { MagnitudePositive(m); }
    ZeroSignificand(m);
  }

  lemma {:induction false} ZeroSignificand(m: Pattern)
    requires m <= INFINITY && (m != 0 ==> Magnitude(m) > 0)
    ensures Significand(m) == 0 <==> m == 0
  {
    ScaledIsProduct(0, Exponent(m) - DENORMAL_EXPONENT);
  }

  lemma {:induction false} NotNan(d: Pattern)
    requires d <= INFINITY || TWO_63 <= d <= INFINITY + TWO_63
    ensures !IsNan(d)
  {
    SignBit(d % TWO_63);
  }

  lemma {:induction false} NextPattern(d: Pattern)
    requires !IsNan(d)
    ensures d <= INFINITY || TWO_63 <= d <= INFINITY + TWO_63
    ensures !IsNan(NextDouble(d))
    ensures NextDouble(d) == if d < INFINITY then d + 1 else if d <= TWO_63 then d % TWO_63 else d - 1
  {
    PatternRange(d);
    NotNan(NextDouble(d));
  }

  lemma {:induction false} OrderedStep(m: Pattern, y: Pattern)
    requires m < INFINITY && y <= INFINITY
    ensures Magnitude(m) < Magnitude(m + 1)
    ensures Magnitude(y) <= Magnitude(m) || Magnitude(m + 1) <= Magnitude(y)
  {
    Increasing(m, m + 1);
    if y < m { Increasing(y, m); }
    if m + 1 < y { Increasing(m + 1, y); }
  }

  // ----- ToInt32 (section 9.5 of ECMA-262) -----

  /** The value without its fraction. */
  function Truncated(d: Pattern): int {
    Sign(d) * (Magnitude(d) / Pow(2, 1074))
  }

  /** The integer part of f * 2^e. */
  function IntegerPart(f: nat, e: int): nat {
    if e < 0 then f / Pow(2, -e) else f * Pow(2, e)
  }

  /** The conversion of sign * f * 2^e by shifts of 64-bit words and a cast to 32 bits. */
  function ShiftToInt32(sign: int, f: nat, e: int): int {
    if e < 0 then
      if e <= -53 then 0 else Wrap32(sign * Wrap32(f / Pow(2, -e)))
    else
      if e > 31 then 0 else Wrap32(sign * Wrap32((f * Pow(2, e)) % TWO_64))
  }

  /** fast is what the platform's own conversion of d to an int happens to return. */
  function DoubleToInt32(d: Pattern, fast: int): int {
    if !IsSpecial(d) && SignedMagnitude(d) == fast * Pow(2, 1074) then fast
    else ShiftToInt32(Sign(d), Significand(d), Exponent(d))
  }

  lemma {:induction false} WrapAfterShift(x: nat)
    ensures Wrap32(x % TWO_64) == Wrap32(x)
  {
    WrapCongruent(x % TWO_64, (x / TWO_64) * TWO_32);
  }

  lemma {:induction false} CancelFactor(x: nat, p: nat, q: nat)
    requires 0 < p && 0 < q
    ensures p * q > 0
    ensures (x * p) / (p * q) == x / q
  {
    MulStrict(0, p, q);
    DivDiv(x * p, p, q);
    DivModUnique(x * p, p, x, 0);
  }

  lemma {:induction false} TruncatedScaled(f: nat, e: int)
    requires e >= -1074
    ensures Scaled(f, e + 1074) / Pow(2, 1074) == IntegerPart(f, e)
  {
    ScaledIsProduct(f, e + 1074);
    if e < 0 {
      PowAdd(2, e + 1074, -e);
      CancelFactor(f, Pow(2, e + 1074), Pow(2, -e));
    } else {
      PowAdd(2, e, 1074);
      MulAssoc(f, Pow(2, e), Pow(2, 1074));
      DivModUnique(Scaled(f, e + 1074), Pow(2, 1074), f * Pow(2, e), 0);
    }
  }

  lemma {:induction false} ShiftedOut(f: nat, e: int)
    requires f < TWO_53 && e <= -53
    ensures f / Pow(2, -e) == 0
  {
    PowersOfTwo();
    PowMono(2, 53, -e);
    DivModUnique(f, Pow(2, -e), 0, f);
  }

  lemma {:induction false} ShiftedPast(f: nat, e: int, sign: int)
    requires e > 31
    ensures Wrap32(sign * (f * Pow(2, e))) == 0
  {
    PowersOfTwo();
    PowAdd(2, e - 32, 32);
    MulAssoc(f, Pow(2, e - 32), TWO_32);
    MulAssoc(sign, f * Pow(2, e - 32), TWO_32);
    WrapCongruent(0, sign * (f * Pow(2, e - 32)));
  }

  /** Although the left shift discards high bits, the low 32 bits of the integer part come out. */
  lemma {:induction false} ShiftToInt32Wraps(sign: int, f: nat, e: int)
    requires f < TWO_53 && (sign == 1 || sign == -1)
    ensures ShiftToInt32(sign, f, e) == Wrap32(sign * IntegerPart(f, e))
  {
    if e <= -53 {
      ShiftedOut(f, e);
    } else if e < 0 {
      WrapProduct(sign, f / Pow(2, -e));
    } else if e > 31 {
      ShiftedPast(f, e, sign);
    } else {
      MulMono(0, f, Pow(2, e));
      WrapAfterShift(f * Pow(2, e));
      WrapProduct(sign, f * Pow(2, e));
    }
  }

  lemma {:induction false} ExactMultiple(sign: int, magnitude: nat, fast: int, p: nat)
    requires 0 < p && (sign == 1 || sign == -1)
    requires sign * magnitude == fast * p
    ensures sign * (magnitude / p) == fast
  {
    assert magnitude == (sign * fast) * p;
    DivModUnique(magnitude, p, sign * fast, 0);
  }

  lemma {:induction false} SignedIsProduct(d: Pattern)
    ensures SignedMagnitude(d) == Sign(d) * Magnitude(d)
  {
  }

  lemma {:induction false} WrapKeeps(x: int)
    requires FitsInt(x)
    ensures Wrap32(x) == x
  {
  }

  lemma {:induction false} FastIsTruncated(d: Pattern, fast: int, p: nat)
    requires FitsInt(fast) && 0 < p && SignedMagnitude(d) == fast * p
    ensures fast == Wrap32(Sign(d) * (Magnitude(d) / p))
  {
    SignedIsProduct(d);
    ExactMultiple(Sign(d), Magnitude(d), fast, p);
    WrapKeeps(fast);
  }

  lemma {:induction false} ShiftIsTruncated(d: Pattern)
    ensures ShiftToInt32(Sign(d), Significand(d), Exponent(d)) == Wrap32(Truncated(d))
  {
    TruncatedScaled(Significand(d), Exponent(d));
    ShiftToInt32Wraps(Sign(d), Significand(d), Exponent(d));
  }

  /** The exponent of NaN and the infinities is too large for the shift. */
  lemma {:induction false} SpecialIsZero(d: Pattern)
    requires IsSpecial(d)
    ensures ShiftToInt32(Sign(d), Significand(d), Exponent(d)) == 0
  {
  }

  /** Zero for NaN and the infinities; otherwise the 32-bit integer congruent to the truncated value modulo
      2^32, whatever the fast path returned. */
  lemma {:induction false} DoubleToInt32IsToInt32(d: Pattern, fast: int)
    requires FitsInt(fast)
    ensures DoubleToInt32(d, fast) == if IsSpecial(d) then 0 else Wrap32(Truncated(d))
  {
    if IsSpecial(d) {
      SpecialIsZero(d);
    } else if SignedMagnitude(d) == fast * Pow(2, 1074) {
      FastIsTruncated(d, fast, Pow(2, 1074));
    } else {
      ShiftIsTruncated(d);
    }
  }
}
