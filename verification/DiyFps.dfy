/** Floating-point numbers f * 2^e with a 64-bit significand: the class DiyFp, and the conversions between
    it and Double. */
module DiyFps {
  import opened Arithmetic
  import opened Rounding
  import opened Doubles

  const TWO_54: nat := 0x40_0000_0000_0000

  /** g * 2^h is the same number as f * 2^e, written with h <= e. */
  ghost predicate SameValue(f: int, e: int, g: int, h: int) {
    h <= e && g == f * Pow(2, e - h)
  }

  lemma {:induction false} ShiftOnce(f: nat, e: int, g: nat, h: int, k: nat)
    requires SameValue(f, e, g, h)
    ensures SameValue(f, e, g * Pow(2, k), h - k)
  {
    PowAdd(2, e - h, k);
    MulAssoc(f, Pow(2, e - h), Pow(2, k));
  }

  /** A number is shifted fewer than 64 places if it still fits in 64 bits. */
  lemma {:induction false} ShiftBound(f: nat, k: nat)
    requires 0 < f && f * Pow(2, k) < TWO_64
    ensures k < 64
  {
    if k >= 64 {
      PowersOfTwo();
      PowMono(2, 64, k);
      MulMono(1, f, Pow(2, k));
    }
  }

  class DiyFp {
    var f: nat
    var e: int

    ghost predicate Valid()
      reads this
    {
      f < TWO_64
    }

    constructor (f: nat, e: int)
      ensures this.f == f && this.e == e
    {
      this.f, this.e := f, e;
    }

    method Subtract(other: DiyFp)
      requires Valid() && other.Valid()
      requires e == other.e && f >= other.f
      modifies this
      ensures Valid()
      ensures f == old(f) - old(other.f) && e == old(e)
    {
      f := f - other.f;
    }

    static method Minus(a: DiyFp, b: DiyFp) returns (result: DiyFp)
      requires a.Valid() && b.Valid()
      requires a.e == b.e && a.f >= b.f
      ensures fresh(result) && result.Valid()
      ensures result.f + b.f == a.f && result.e == a.e
    {
      result := new DiyFp(a.f, a.e);
      result.Subtract(b);
    }

    /** The same number with the most significant bit of the significand set. */
    method Normalize()
      requires Valid() && f != 0
      modifies this
      ensures Valid()
      ensures TWO_63 <= f
      ensures SameValue(old(f), old(e), f, e)
    {
      ghost var f0, e0 := f, e;
      var g, h := f, e;
      while g / TWO_54 == 0
        invariant 0 < g < TWO_64
        invariant SameValue(f0, e0, g, h)
        decreases TWO_64 - g
      {
        ShiftOnce(f0, e0, g, h, 10);
        PowersOfTwo();
        g := g * 0x400;
        h := h - 10;
      }
      while g / TWO_63 == 0
        invariant 0 < g < TWO_64
        invariant SameValue(f0, e0, g, h)
        decreases TWO_64 - g
      {
        ShiftOnce(f0, e0, g, h, 1);
        g := g * 2;
        h := h - 1;
      }
      f, e := g, h;
    }

    static method Normalized(a: DiyFp) returns (result: DiyFp)
      requires a.Valid() && a.f != 0
      ensures fresh(result) && result.Valid()
      ensures TWO_63 <= result.f
      ensures SameValue(a.f, a.e, result.f, result.e)
    {
      result := new DiyFp(a.f, a.e);
      result.Normalize();
    }
  }

  // ----- from Double -----

  method AsDiyFp(d: Pattern) returns (r: DiyFp)
    requires d < INFINITY
    ensures fresh(r) && r.Valid()
    ensures r.f == Significand(d) && r.e == Exponent(d)
    ensures Scaled(r.f, r.e - DENORMAL_EXPONENT) == Magnitude(d)
  {
    r := new DiyFp(Significand(d), Exponent(d));
  }

  /** Shifting a full significand to the top of the word loses nothing. */
  lemma {:induction false} FinalShift(f: nat)
    requires TWO_52 <= f < TWO_53
    ensures Pow(2, 11) == 0x800
    ensures f * 0x800 % TWO_64 == f * 0x800 && TWO_63 <= f * 0x800 < TWO_64
  {
    PowersOfTwo();
  }

  method AsNormalizedDiyFp(d: Pattern) returns (r: DiyFp)
    requires 0 < d < INFINITY
    ensures fresh(r) && r.Valid()
    ensures TWO_63 <= r.f
    ensures SameValue(Significand(d), Exponent(d), r.f, r.e)
  {
    var f, e := Significand(d), Exponent(d);
    while f / TWO_52 % 2 == 0
      invariant 0 < f < TWO_53
      invariant SameValue(Significand(d), Exponent(d), f, e)
      decreases TWO_53 - f
    {
      ShiftOnce(Significand(d), Exponent(d), f, e, 1);
      f := f * 2;
      e := e - 1;
    }
    ShiftOnce(Significand(d), Exponent(d), f, e, 11);
    FinalShift(f);
    r := new DiyFp(f * 0x800 % TWO_64, e - 11);
  }

  // ----- boundaries -----

  /** Twice the midpoint between a finite double and the next pattern. */
  function UpperMidpoint(d: Pattern): nat
    requires d < INFINITY
  {
    Magnitude(d) + Magnitude(d + 1)
  }

  /** The midpoint has one more bit of precision. */
  lemma {:induction false} UpperMidpointValue(d: Pattern)
    requires d < INFINITY
    ensures UpperMidpoint(d) == Scaled(2 * Significand(d) + 1, Exponent(d) - DENORMAL_EXPONENT)
  {
    var f, x := Significand(d), Exponent(d) - DENORMAL_EXPONENT;
    NextMagnitude(d);
    ScaledIsProduct(f, x);
    ScaledIsProduct(2 * f + 1, x);
    MulTwicePlus(f, 1, Pow(2, x));
  }

  /** Below a power of two the doubles are twice as dense, unless they are denormal. */
  lemma {:induction false} LowerMidpointValue(d: Pattern)
    requires 0 < d < INFINITY
    ensures var f, x := Significand(d), Exponent(d) - DENORMAL_EXPONENT;
            UpperMidpoint(d - 1) ==
            if f == TWO_52 && x > 0 then Scaled(4 * f - 1, x - 1) else Scaled(2 * f - 1, x)
  {
    NextFields(d - 1);
    UpperMidpointValue(d - 1);
  }

  /** f * 2^e in units of 2^-1138: fine enough for every boundary. */
  function Fine(f: nat, e: int): nat
    requires e >= -1138
  {
    Scaled(f, e + 1138)
  }

  lemma {:induction false} FineSame(f: nat, e: int, g: nat, h: int)
    requires SameValue(f, e, g, h) && h >= -1138
    ensures Fine(g, h) == Fine(f, e)
  {
    ScaledIsProduct(f, e + 1138);
    ScaledIsProduct(g, h + 1138);
    PowAdd(2, e - h, h + 1138);
    MulAssoc(f, Pow(2, e - h), Pow(2, h + 1138));
  }

  lemma {:induction false} FineHalf(m: nat, x: nat)
    ensures 2 * Fine(m, x - 1 + DENORMAL_EXPONENT) == Scaled(m, x) * TWO_64
  {
    ScaledIsProduct(m, x + 64);
    ScaledIsProduct(m, x);
    PowersOfTwo();
    PowAdd(2, x, 64);
    MulAssoc(m, Pow(2, x), TWO_64);
    assert 2 * Scaled(m, x + 63) == Scaled(m, x + 64);
  }

  /** The lower boundary, smaller than the normalized upper one, loses no bits in the alignment. */
  lemma {:induction false} AlignFits(f: nat, e: int, g: nat, h: int)
    requires h <= e && -1138 <= h && g < TWO_64
    requires Fine(f, e) <= Fine(g, h)
    ensures f * Pow(2, e - h) < TWO_64
  {
    ScaledIsProduct(f, e + 1138);
    ScaledIsProduct(g, h + 1138);
    PowAdd(2, e - h, h + 1138);
    MulAssoc(f, Pow(2, e - h), Pow(2, h + 1138));
    if f * Pow(2, e - h) > g {
      MulStrict(g, f * Pow(2, e - h), Pow(2, h + 1138));
    }
  }

  lemma {:induction false} NormalizeLeavesRoom(f: nat, e: int, g: nat, h: int)
    requires 0 < f < TWO_54 && e >= -1075
    requires SameValue(f, e, g, h) && TWO_63 <= g < TWO_64
    ensures -1138 <= h <= e - 10
  {
    ShiftBound(f, e - h);
    if h > e - 10 {
      PowersOfTwo();
      PowMono(2, e - h, 9);
      PowAdd(2, 9, 1);
      MulMono(Pow(2, e - h), 0x200, f);
      MulMono(f, TWO_54 - 1, 0x200);
    }
  }

  /** The upper boundary before normalization. */
  function RawUpper(d: Pattern): (nat, int) {
    (2 * Significand(d) + 1, Exponent(d) - 1)
  }

  /** The lower boundary before alignment: closer to a power of two, whose lower neighbours are denser. */
  function RawLower(d: Pattern): (nat, int)
    requires 0 < d < INFINITY
  {
    var f, e := Significand(d), Exponent(d);
    if f == TWO_52 && e != DENORMAL_EXPONENT then (4 * f - 1, e - 2) else (2 * f - 1, e - 1)
  }

  lemma {:induction false} RawUpperValue(d: Pattern)
    requires d < INFINITY
    ensures 2 * Fine(RawUpper(d).0, RawUpper(d).1) == UpperMidpoint(d) * TWO_64
  {
    UpperMidpointValue(d);
    FineHalf(2 * Significand(d) + 1, Exponent(d) - DENORMAL_EXPONENT);
  }

  lemma {:induction false} RawLowerValue(d: Pattern)
    requires 0 < d < INFINITY
    ensures 2 * Fine(RawLower(d).0, RawLower(d).1) == UpperMidpoint(d - 1) * TWO_64
  {
    var f, x := Significand(d), Exponent(d) - DENORMAL_EXPONENT;
    LowerMidpointValue(d);
    if f == TWO_52 && x > 0 {
      FineHalf(4 * f - 1, x - 1);
    } else {
      FineHalf(2 * f - 1, x);
    }
  }

  lemma {:induction false} MidpointsIncrease(d: Pattern)
    requires 0 < d < INFINITY
    ensures UpperMidpoint(d - 1) < UpperMidpoint(d)
  {
    Increasing(d - 1, d);
    Increasing(d, d + 1);
  }

  /** Aligning a lower number with a normalized higher one keeps its value and loses no bits. */
  lemma {:induction false} Align(uf: nat, ue: int, g: nat, h: int, f: nat, e: int)
    requires 0 < uf < TWO_54 && ue >= -1075 && e >= ue - 1
    requires SameValue(uf, ue, g, h) && TWO_63 <= g < TWO_64
    requires Fine(f, e) <= Fine(uf, ue)
    ensures -1138 <= h <= e
    ensures Fine(g, h) == Fine(uf, ue)
    ensures 0 <= f * Pow(2, e - h) < TWO_64
    ensures Fine(f * Pow(2, e - h), h) == Fine(f, e)
  {
    NormalizeLeavesRoom(uf, ue, g, h);
    FineSame(uf, ue, g, h);
    AlignFits(f, e, g, h);
    MulMono(0, f, Pow(2, e - h));
    FineSame(f, e, f * Pow(2, e - h), h);
  }

  /** The normalized upper boundary g * 2^h and the lower one f * 2^e shifted to the same exponent. */
  lemma {:induction false} AlignBoundaries(d: Pattern, g: nat, h: int, f: nat, e: int)
    requires 0 < d < INFINITY
    requires SameValue(RawUpper(d).0, RawUpper(d).1, g, h) && TWO_63 <= g < TWO_64
    requires (f, e) == RawLower(d)
    ensures -1138 <= h <= e
    ensures 0 <= f * Pow(2, e - h) % TWO_64 == f * Pow(2, e - h) < TWO_64
    ensures 2 * Fine(g, h) == UpperMidpoint(d) * TWO_64
    ensures 2 * Fine(f * Pow(2, e - h), h) == UpperMidpoint(d - 1) * TWO_64
  {
    RawUpperValue(d);
    RawLowerValue(d);
    MidpointsIncrease(d);
    Align(RawUpper(d).0, RawUpper(d).1, g, h, f, e);
    ModSmall(f * Pow(2, e - h), TWO_64);
  }

  method UpperBoundary(d: Pattern) returns (m: DiyFp)
    requires d < INFINITY
    ensures fresh(m) && m.Valid()
    ensures (m.f, m.e) == RawUpper(d)
  {
    m := new DiyFp(Significand(d) * 2 % TWO_64 + 1, Exponent(d) - 1);
  }

  method LowerBoundary(v: DiyFp, ghost d: Pattern) returns (m: DiyFp)
    requires 0 < d < INFINITY && v.f == Significand(d) && v.e == Exponent(d)
    ensures fresh(m) && m.Valid()
    ensures (m.f, m.e) == RawLower(d)
  {
    var significandIsZero := v.f == TWO_52;
    if significandIsZero && v.e != DENORMAL_EXPONENT {
      m := new DiyFp(v.f * 4 % TWO_64 - 1, v.e - 2);
    } else {
      m := new DiyFp(v.f * 2 % TWO_64 - 1, v.e - 1);
    }
  }

  /** The midpoints between d and its two neighbours, exactly, with equal exponents and the upper one
      normalized. */
  method NormalizedBoundaries(d: Pattern) returns (mMinus: DiyFp, mPlus: DiyFp)
    requires 0 < d < INFINITY
    ensures fresh(mMinus) && fresh(mPlus) && mMinus.Valid() && mPlus.Valid()
    ensures TWO_63 <= mPlus.f
    ensures mMinus.e == mPlus.e >= -1138
    ensures 2 * Fine(mPlus.f, mPlus.e) == UpperMidpoint(d) * TWO_64
    ensures 2 * Fine(mMinus.f, mMinus.e) == UpperMidpoint(d - 1) * TWO_64
  {
    var v := AsDiyFp(d);
    var upper := UpperBoundary(d);
    mPlus := DiyFp.Normalized(upper);
    mMinus := LowerBoundary(v, d);
    AlignBoundaries(d, mPlus.f, mPlus.e, mMinus.f, mMinus.e);
    mMinus.f := mMinus.f * Pow(2, mMinus.e - mPlus.e) % TWO_64;
    mMinus.e := mPlus.e;
  }

  // ----- to Double -----

  /** How many bits of f are beyond the 53 that a double keeps. */
  function Excess(f: nat): nat {
    if f < TWO_53 then 0 else 1 + Excess(f / 2)
  }

  /** The leading 53 bits. */
  function Leading(f: nat): nat {
    f / Pow(2, Excess(f))
  }

  lemma {:induction false} ExcessIsLeast(f: nat)
    ensures Leading(f) < TWO_53
    ensures f >= TWO_53 ==> TWO_52 <= Leading(f)
    ensures f >= TWO_53 ==> Leading(f) == Leading(f / 2)
  {
    if f >= TWO_53 {
      ExcessIsLeast(f / 2);
      DivDiv(f, 2, Pow(2, Excess(f / 2)));
    }
  }

  /** What DiyFpToUint64 returns for f * 2^e. */
  ghost predicate IsEncoding(r: Pattern, f: nat, e: int) {
    var m, x := Leading(f), e + Excess(f);
    if x >= MAX_EXPONENT then r == INFINITY
    else if x < DENORMAL_EXPONENT then r == 0
    else r < INFINITY && Magnitude(r) == Scaled(m, x - DENORMAL_EXPONENT)
  }

  method DiyFpToUint64(f: nat, e: int) returns (r: Pattern)
    requires f < TWO_64
    ensures IsEncoding(r, f, e)
  {
    var significand: nat, exponent: int := f, e;
    while significand > TWO_52 + (TWO_52 - 1)
      invariant e <= exponent
      invariant Leading(significand) == Leading(f)
      invariant exponent + Excess(significand) == e + Excess(f)
      decreases significand
    {
      ExcessIsLeast(significand);
      significand := significand / 2;
      exponent := exponent + 1;
    }
    if exponent >= MAX_EXPONENT {
      return INFINITY;
    }
    if exponent < DENORMAL_EXPONENT {
      return 0;
    }
    ghost var value := Scaled(significand, exponent - DENORMAL_EXPONENT);
    while exponent > DENORMAL_EXPONENT && significand / TWO_52 % 2 == 0
      invariant significand < TWO_53
      invariant DENORMAL_EXPONENT <= exponent < MAX_EXPONENT
      invariant Scaled(significand, exponent - DENORMAL_EXPONENT) == value
    {
      ScaledDouble(significand, exponent - 1 - DENORMAL_EXPONENT);
      significand := significand * 2;
      exponent := exponent - 1;
    }
    var biased := if exponent == DENORMAL_EXPONENT && significand / TWO_52 % 2 == 0 then 0 else exponent + EXPONENT_BIAS;
    r := significand % TWO_52 + biased * TWO_52;
    PatternFields(biased, significand % TWO_52);
  }

  lemma {:induction false} ScaledDouble(m: nat, x: nat)
    ensures Scaled(2 * m, x) == Scaled(m, x + 1)
  {
    if x > 0 {
      ScaledDouble(m, x - 1);
    }
  }

  lemma {:induction false} PatternFields(biased: nat, fraction: nat)
    requires biased < TWO_11 - 1 && fraction < TWO_52
    ensures fraction + biased * TWO_52 < INFINITY
    ensures BiasedExponent(fraction + biased * TWO_52) == biased
    ensures Fraction(fraction + biased * TWO_52) == fraction
  {
  }

  /** Converting a finite non-negative double to a DiyFp and back is the identity. */
  lemma {:induction false} EncodeDecode(d: Pattern, r: Pattern)
    requires d < INFINITY
    requires IsEncoding(r, Significand(d), Exponent(d))
    ensures r == d
  {
    assert Leading(Significand(d)) == Significand(d);
    MagnitudeInjective(r, d);
  }

  /** r is finite and worth the leading 53 bits of f * 2^e. */
  ghost predicate IsTruncation(r: Pattern, f: nat, e: int) {
    var m, x := Leading(f), e + Excess(f) - DENORMAL_EXPONENT;
    && r < INFINITY
    && Scaled(Magnitude(r), Max(-x, 0)) == Scaled(m, Max(x, 0))
  }

  /** The conversion truncates to 53 bits exactly when the exponent of the leading 53 bits is one that a
      double can have, or the number is zero and the exponent too small. */
  lemma {:induction false} WhenEncodingTruncates(r: Pattern, f: nat, e: int)
    requires IsEncoding(r, f, e)
    ensures IsTruncation(r, f, e) <==>
            e + Excess(f) < MAX_EXPONENT && (DENORMAL_EXPONENT <= e + Excess(f) || f == 0)
  {
    var m, x := Leading(f), e + Excess(f);
    ExcessIsLeast(f);
    if x < DENORMAL_EXPONENT {
      ScaledIsProduct(Magnitude(r), DENORMAL_EXPONENT - x);
      MagnitudePositive(1);
    }
  }

  /** 2^972 is a double, but a significand that was not shifted up loses it to infinity. */
  lemma {:induction false} UnnormalizedLosesValue(r: Pattern)
    requires IsEncoding(r, 1, 972)
    ensures r == INFINITY
    ensures IsEncoding(0x7CB0_0000_0000_0000, TWO_52, 920)
    ensures Scaled(1, 972 - DENORMAL_EXPONENT) == Magnitude(0x7CB0_0000_0000_0000)
  {
    var d: Pattern := 0x7CB0_0000_0000_0000;
    assert BiasedExponent(d) == 1995 && Fraction(d) == 0;
    ScaledIsProduct(1, 972 - DENORMAL_EXPONENT);
    ScaledIsProduct(TWO_52, 920 - DENORMAL_EXPONENT);
    PowersOfTwo();
    PowAdd(2, 52, 920 - DENORMAL_EXPONENT);
  }
}
