/** The parsers meet the doubles: what they hand on rounds to the double that the written number rounds to. */
module CorrectRounding {
  import opened Arithmetic
  import opened Digits
  import opened Rounding
  import opened Doubles
  import opened DiyFps
  import opened DecimalOrder
  import opened DecimalSimplification
  import StringToDouble
  import ParseInt
  import PowerOfTwoRadix

  // ----- rounding to a double is a function -----

  lemma {:induction false} CompareDecreasing(a: int, q: int, u: int, v: int)
    requires u < v
    ensures CompareBinary(a, q, v) < CompareBinary(a, q, u)
  {
    ProductIs(u, Pow(10, Max(-q, 0)));
    ProductIs(v, Pow(10, Max(-q, 0)));
    MulStrict(u, v, Pow(10, Max(-q, 0)));
  }

  lemma {:induction false} MidpointsOrdered(d: Pattern, e: Pattern)
    requires d < e < INFINITY
    ensures UpperMidpoint(d) < UpperMidpoint(e)
  {
    Increasing(d, e);
    Increasing(d + 1, e + 1);
  }

  /** No number rounds to two doubles. */
  lemma {:induction false} RoundsToOne(a: int, q: int, d: Pattern, e: Pattern)
    requires RoundsTo(a, q, d) && RoundsTo(a, q, e)
    ensures d == e
  {
    if d < e {
      NotToBoth(a, q, d, e);
    } else if e < d {
      NotToBoth(a, q, e, d);
    }
  }

  lemma {:induction false} NotToBoth(a: int, q: int, d: Pattern, e: Pattern)
    requires d < e <= INFINITY && RoundsTo(a, q, d)
    ensures !RoundsTo(a, q, e)
  {
    var above := AboveSide(a, q, d);
    NotFromBelow(a, q, d, e, above);
  }

  lemma {:induction false} NotFromBelow(a: int, q: int, d: Pattern, e: Pattern, above: int)
    requires d < e <= INFINITY && above == CompareBinary(a, q, UpperMidpoint(d))
    requires above < 0 || (above == 0 && d % 2 == 0)
    ensures !RoundsTo(a, q, e)
  {
    var below := BelowSide(a, q, e);
    CompareMidpoints(a, q, d, e, above, below);
    Incompatible(d, e, above, below);
  }

  lemma {:induction false} Incompatible(d: Pattern, e: Pattern, above: int, below: int)
    requires d < e && (above < 0 || (above == 0 && d % 2 == 0))
    requires if d == e - 1 then below == above else below < above
    ensures !(below > 0 || (below == 0 && e % 2 == 0))
  {
  }

  lemma {:induction false} AboveSide(a: int, q: int, d: Pattern) returns (above: int)
    requires d < INFINITY
    ensures above == CompareBinary(a, q, UpperMidpoint(d))
    ensures RoundsTo(a, q, d) ==> above < 0 || (above == 0 && d % 2 == 0)
  {
    above := CompareBinary(a, q, UpperMidpoint(d));
  }

  lemma {:induction false} BelowSide(a: int, q: int, e: Pattern) returns (below: int)
    requires 0 < e <= INFINITY
    ensures below == CompareBinary(a, q, UpperMidpoint(e - 1))
    ensures RoundsTo(a, q, e) ==> below > 0 || (below == 0 && e % 2 == 0)
  {
    below := CompareBinary(a, q, UpperMidpoint(e - 1));
  }

  lemma {:induction false} CompareMidpoints(a: int, q: int, d: Pattern, e: Pattern, above: int, below: int)
    requires d < e <= INFINITY
    requires above == CompareBinary(a, q, UpperMidpoint(d)) && below == CompareBinary(a, q, UpperMidpoint(e - 1))
    ensures if d == e - 1 then below == above else below < above
  {
    if d < e - 1 {
      MidpointsOrdered(d, e - 1);
      CompareDecreasing(a, q, UpperMidpoint(d), UpperMidpoint(e - 1));
    }
  }

  /** Every number rounds to some double: the search upwards from a double that is not too large ends. */
  lemma {:induction false} RoundsToSome(a: int, q: int, d: Pattern) returns (e: Pattern)
    requires d <= INFINITY
    requires d > 0 ==> CompareBinary(a, q, UpperMidpoint(d - 1)) > 0
    ensures RoundsTo(a, q, e)
    decreases INFINITY - d
  {
    if d == INFINITY {
      return d;
    }
    var c := CompareBinary(a, q, UpperMidpoint(d));
    if c < 0 || (c == 0 && d % 2 == 0) {
      return d;
    }
    if c == 0 {
      TieGoesUp(a, q, d);
      return d + 1;
    }
    e := RoundsToSome(a, q, d + 1);
  }

  lemma {:induction false} NextIsBelow(a: int, q: int, d: Pattern) returns (above: int)
    requires d + 1 < INFINITY && CompareBinary(a, q, UpperMidpoint(d)) == 0
    ensures above == CompareBinary(a, q, UpperMidpoint(d + 1)) < 0
  {
    MidpointsOrdered(d, d + 1);
    CompareDecreasing(a, q, UpperMidpoint(d), UpperMidpoint(d + 1));
    above := CompareBinary(a, q, UpperMidpoint(d + 1));
  }

  lemma {:induction false} EvenTakesTie(a: int, q: int, e: Pattern, above: int)
    requires 0 < e <= INFINITY && e % 2 == 0
    requires CompareBinary(a, q, UpperMidpoint(e - 1)) == 0
    requires e < INFINITY ==> above == CompareBinary(a, q, UpperMidpoint(e)) && above < 0
    ensures RoundsTo(a, q, e)
  {
    SidesDecide(a, q, e, 0, above);
  }

  lemma {:induction false} TieGoesUp(a: int, q: int, d: Pattern)
    requires d < INFINITY && d % 2 == 1
    requires CompareBinary(a, q, UpperMidpoint(d)) == 0
    ensures RoundsTo(a, q, d + 1)
  {
    if d + 1 < INFINITY {
      var above := NextIsBelow(a, q, d);
      EvenTakesTie(a, q, d + 1, above);
    } else {
      EvenTakesTie(a, q, d + 1, -1);
    }
  }

  // ----- integers rounded to 53 bits -----

  /** The pattern of a normal double. */
  lemma {:induction false} NormalPattern(r: Pattern, m: nat, e: nat)
    requires TWO_52 <= m < TWO_53 && e < MAX_EXPONENT
    requires r < INFINITY && Magnitude(r) == Scaled(m, e - DENORMAL_EXPONENT)
    ensures Significand(r) == m && Exponent(r) == e
    ensures r % 2 == m % 2
  {
    PatternFields(e + EXPONENT_BIAS, m - TWO_52);
    var p: Pattern := (m - TWO_52) + (e + EXPONENT_BIAS) * TWO_52;
    assert Significand(p) == m && Exponent(p) == e;
    MagnitudeInjective(r, p);
  }

  lemma {:induction false} CompareWithInteger(n: int, u: int)
    ensures CompareBinary(n, 0, u) == n * (2 * Pow(2, 1074)) - u
  {
    CompareFraction(n, 0, u);
    PowAdd(2, 1, 1074);
  }

  lemma {:induction false} ScaledFurther(c: nat, x: nat, z: nat)
    ensures Scaled(c, x + z) == Scaled(c, x) * Pow(2, z)
  {
    ScaledIsProduct(c, x);
    ScaledIsProduct(c, x + z);
    PowAdd(2, x, z);
    MulAssoc(c, Pow(2, x), Pow(2, z));
  }

  lemma {:induction false} DifferenceTimes(n: int, s: int, k: int)
    ensures n * (2 * k) - s * k == (2 * n - s) * k
  {
    MulTwice(n, k);
  }

  /** Any number of common doublings decides the comparison. */
  lemma {:induction false} CompareDoubled(n: int, c: nat, x: nat, z: nat)
    ensures SameSign(n * (2 * Pow(2, z)) - Scaled(c, x + z), 2 * n - Scaled(c, x))
  {
    ScaledFurther(c, x, z);
    DifferenceTimes(n, Scaled(c, x), Pow(2, z));
    SignOfProduct(2 * n - Scaled(c, x), Pow(2, z));
  }

  lemma {:induction false} CompareInteger(n: int, c: nat, x: nat)
    ensures SameSign(CompareBinary(n, 0, Scaled(c, x + 1074)), 2 * n - Scaled(c, x))
  {
    CompareWithInteger(n, Scaled(c, x + 1074));
    CompareDoubled(n, c, x, 1074);
  }

  lemma {:induction false} ScaledSum(m: nat, e: nat)
    ensures Scaled(2 * m + 1, e) == Scaled(m, e) + Scaled(m + 1, e)
    ensures Scaled(m, e) < Scaled(m + 1, e)
  {
    ScaledIsProduct(m, e);
    ScaledIsProduct(m + 1, e);
    ScaledIsProduct(2 * m + 1, e);
    MulTwicePlus(m, 1, Pow(2, e));
    MulTwicePlus(0, m + 1, Pow(2, e));
    MulStrict(m, m + 1, Pow(2, e));
  }

  /** A rounding is no further above a number than half way to the next significand. */
  lemma {:induction false} NotBeyondUpper(n: int, m: nat, e: nat)
    requires IsRounding(n, m, e) && TWO_52 <= m
    ensures 2 * n < Scaled(2 * m + 1, e) || (2 * n == Scaled(2 * m + 1, e) && m % 2 == 0)
  {
    ScaledSum(m, e);
    if m + 1 < TWO_53 {
      assert Distance(n, m, e) <= Distance(n, m + 1, e);
    } else {
      ScaledCarry(e);
      assert Distance(n, m, e) <= Distance(n, TWO_52, e + 1);
    }
  }

  lemma {:induction false} NotBeyondLower(n: int, m: nat, e: nat)
    requires IsRounding(n, m, e) && TWO_52 < m
    ensures 2 * n > Scaled(2 * m - 1, e) || (2 * n == Scaled(2 * m - 1, e) && m % 2 == 0)
  {
    ScaledSum(m - 1, e);
    assert Distance(n, m, e) <= Distance(n, m - 1, e);
  }

  /** Below a power of two the neighbour is half as far. */
  lemma {:induction false} NotBeyondDenser(n: int, e: nat)
    requires IsRounding(n, TWO_52, e) && e > 0
    ensures 2 * n >= Scaled(4 * TWO_52 - 1, e - 1)
  {
    ScaledCarry(e - 1);
    ScaledSum(TWO_53 - 1, e - 1);
    assert Distance(n, TWO_52, e) <= Distance(n, TWO_53 - 1, e - 1);
  }

  lemma {:induction false} NormalUpper(n: int, m: nat, e: nat, r: Pattern) returns (above: int)
    requires IsRounding(n, m, e) && TWO_52 <= m
    requires r < INFINITY && Significand(r) == m && Exponent(r) == e
    ensures above == CompareBinary(n, 0, UpperMidpoint(r))
    ensures above < 0 || (above == 0 && m % 2 == 0)
  {
    UpperMidpointValue(r);
    NotBeyondUpper(n, m, e);
    above := CompareBinary(n, 0, UpperMidpoint(r));
    CompareMidpoint(n, UpperMidpoint(r), 2 * m + 1, e);
  }

  lemma {:induction false} CompareMidpoint(n: int, u: nat, c: nat, x: nat)
    requires u == Scaled(c, x + 1074)
    ensures SameSign(CompareBinary(n, 0, u), 2 * n - Scaled(c, x))
  {
    CompareInteger(n, c, x);
  }

  /** The midpoint below a normal double as an integer c * 2^x, which twice the number does not fall short of. */
  lemma {:induction false} LowerMidpointOf(n: int, m: nat, e: nat, r: Pattern) returns (c: nat, x: nat)
    requires IsRounding(n, m, e) && TWO_52 <= m && 0 < e
    requires 0 < r < INFINITY && Significand(r) == m && Exponent(r) == e
    ensures UpperMidpoint(r - 1) == Scaled(c, x + 1074)
    ensures 2 * n > Scaled(c, x) || (2 * n == Scaled(c, x) && m % 2 == 0)
  {
    LowerMidpointValue(r);
    if m == TWO_52 {
      NotBeyondDenser(n, e);
      c, x := 4 * m - 1, e - 1;
    } else {
      NotBeyondLower(n, m, e);
      c, x := 2 * m - 1, e;
    }
  }

  lemma {:induction false} NormalLower(n: int, m: nat, e: nat, r: Pattern) returns (below: int)
    requires IsRounding(n, m, e) && TWO_52 <= m && 0 < e
    requires 0 < r < INFINITY && Significand(r) == m && Exponent(r) == e
    ensures below == CompareBinary(n, 0, UpperMidpoint(r - 1))
    ensures below > 0 || (below == 0 && m % 2 == 0)
  {
    var c, x := LowerMidpointOf(n, m, e, r);
    below := CompareBinary(n, 0, UpperMidpoint(r - 1));
    CompareMidpoint(n, UpperMidpoint(r - 1), c, x);
  }

  lemma {:induction false} NormalRounds(n: int, m: nat, e: nat, r: Pattern)
    requires IsRounding(n, m, e) && TWO_52 <= m && 0 < e < MAX_EXPONENT
    requires r < INFINITY && Magnitude(r) == Scaled(m, e - DENORMAL_EXPONENT)
    ensures RoundsTo(n, 0, r)
  {
    NormalPattern(r, m, e);
    var above := NormalUpper(n, m, e, r);
    var below := NormalLower(n, m, e, r);
    SidesDecide(n, 0, r, below, above);
  }

  /** A rounding with exponent zero is exact. */
  lemma {:induction false} SmallIsExact(n: nat, m: nat)
    requires IsRounding(n, m, 0)
    ensures n == m
  {
    if n < TWO_53 {
      assert Distance(n, m, 0) <= Distance(n, n, 0);
    } else {
      BeyondExact(n, m);
    }
  }

  lemma {:induction false} BeyondExact(n: nat, m: nat)
    requires m < TWO_53 <= n
    ensures Distance(n, TWO_52, 1) < Distance(n, m, 0)
  {
    assert Scaled(TWO_52, 1) == TWO_53;
  }

  lemma {:induction false} SmallRounds(n: nat, r: Pattern)
    requires r < INFINITY && Magnitude(r) == Scaled(n, 1074)
    ensures RoundsTo(n, 0, r)
  {
    CompareExact(n, r, UpperMidpoint(r));
    Increasing(r, r + 1);
    if r > 0 {
      CompareExact(n, r, UpperMidpoint(r - 1));
      Increasing(r - 1, r);
    }
  }

  lemma {:induction false} CompareExact(n: nat, r: Pattern, u: int)
    requires Magnitude(r) == Scaled(n, 1074)
    ensures CompareBinary(n, 0, u) == 2 * Magnitude(r) - u
  {
    CompareWithInteger(n, u);
    ScaledIsProduct(n, 1074);
    MulTwice(n, Pow(2, 1074));
  }

  /** The midpoint above the largest finite double, whose exponent is x. */
  lemma {:induction false} LastMidpoint(x: nat)
    requires x == 971
    ensures UpperMidpoint(INFINITY - 1) == Scaled(2 * TWO_53 - 1, x + 1074)
  {
    var top: Pattern := INFINITY - 1;
    assert BiasedExponent(top) == 2046 && Fraction(top) == TWO_52 - 1;
    UpperMidpointValue(top);
  }

  lemma {:induction false} BeyondLargest(n: int, m: nat, e: nat, x: nat)
    requires IsRounding(n, m, e) && e > x
    ensures 2 * n >= Scaled(2 * TWO_53 - 1, x)
  {
    ScaledSum(TWO_53 - 1, x);
    ScaledCarry(x);
    NotBelowBinade(m, x + 1, e);
    assert Distance(n, m, e) <= Distance(n, TWO_53 - 1, x);
  }

  lemma {:induction false} LargeRounds(n: int, m: nat, e: nat, x: nat)
    requires IsRounding(n, m, e) && x == 971 && e > x
    ensures RoundsTo(n, 0, INFINITY)
  {
    LastMidpoint(x);
    BeyondLargest(n, m, e, x);
    CompareInteger(n, 2 * TWO_53 - 1, x);
  }

  lemma {:induction false} NotBelowBinade(m: nat, x: nat, e: nat)
    requires TWO_52 <= m && x <= e
    ensures Scaled(TWO_52, x) <= Scaled(m, e)
  {
    ScaledIsProduct(TWO_52, x);
    ScaledIsProduct(m, e);
    PowMono(2, x, e);
    MulMono(TWO_52, m, Pow(2, e));
    MulMono(Pow(2, x), Pow(2, e), TWO_52);
  }

  /** Encoding the 53-bit rounding of an integer gives the double that the integer rounds to, be it infinity. */
  lemma {:induction false} RoundedIntegerIsDouble(n: nat, m: nat, e: nat, r: Pattern)
    requires IsRounding(n, m, e) && IsEncoding(r, m, e)
    ensures RoundsTo(n, 0, r)
  {
    assert Excess(m) == 0 && Leading(m) == m;
    if e >= MAX_EXPONENT {
      LargeRounds(n, m, e, 971);
    } else if e > 0 {
      NormalRounds(n, m, e, r);
    } else {
      SmallIsExact(n, m);
      SmallRounds(n, r);
    }
  }

  lemma {:induction false} BeyondLastMidpoint(n: int, x: nat)
    requires x == 971 && n >= Pow(2, 1024)
    ensures 2 * n > Scaled(2 * TWO_53 - 1, x)
  {
    ScaledIsProduct(2 * TWO_53 - 1, x);
    PowersOfTwo();
    PowAdd(2, 53, x);
    MulTwicePlus(TWO_53, -1, Pow(2, x));
  }

  lemma {:induction false} BeyondCompares(n: int, x: nat)
    requires x == 971 && n >= Pow(2, 1024)
    ensures RoundsTo(n, 0, INFINITY)
  {
    LastMidpoint(x);
    BeyondLastMidpoint(n, x);
    CompareInteger(n, 2 * TWO_53 - 1, x);
  }

  /** Integers from 2^1024 on round to infinity. */
  lemma {:induction false} BeyondRounds(n: nat, x: Pattern)
    requires n >= Pow(2, 1024)
    ensures RoundsTo(n, 0, x) <==> x == INFINITY
  {
    BeyondCompares(n, 971);
    if RoundsTo(n, 0, x) {
      RoundsToOne(n, 0, x, INFINITY);
    }
  }

  lemma {:induction false} BeyondDecimalRounds(n: nat, x: Pattern)
    requires n >= Pow(10, 309)
    ensures RoundsTo(n, 0, x) <==> x == INFINITY
  {
    ParseInt.BeyondEveryDouble();
    BeyondRounds(n, x);
  }

  /** The digits that parseInt keeps of a decimal integer round to the double that the integer rounds to. */
  lemma {:induction false} ParsedDecimalRounds(r: ParseInt.Outcome, rnd: int -> int, n: nat, x: Pattern)
    requires r.Decimal? && ParseInt.Denotes(r, 10, rnd, n)
    ensures RoundsTo(Value(r.digits, 10), 0, x) <==> RoundsTo(n, 0, x)
  {
    var m := Value(r.digits, 10);
    if m != n {
      BeyondDecimalRounds(m, x);
      BeyondDecimalRounds(n, x);
    }
  }

  /** Encoding the result for an implicit octal literal gives the double that the octal number rounds to. */
  lemma {:induction false} OctalRoundsAsWritten(integer: string, m: nat, e: nat, r: Pattern)
    requires StringToDouble.IsOctal(integer, m, e) && IsEncoding(r, m, e)
    ensures RoundsTo(Value(integer, 8), 0, r)
  {
    var n: nat :| IsRounding(n, m, e) && StringToDouble.EquallyLarge(n, Value(integer, 8));
    RoundedIntegerIsDouble(n, m, e, r);
    if n != Value(integer, 8) {
      BeyondRounds(n, r);
      BeyondRounds(Value(integer, 8), r);
    }
  }

  // ----- decimal literals -----

  lemma {:induction false} ZeroRounds(p: int, q: int, x: Pattern)
    ensures RoundsTo(0, p, x) <==> RoundsTo(0, q, x)
  {
    if x <= INFINITY {
      if x > 0 {
        ZeroCompares(p, UpperMidpoint(x - 1));
        ZeroCompares(q, UpperMidpoint(x - 1));
      }
      if x < INFINITY {
        ZeroCompares(p, UpperMidpoint(x));
        ZeroCompares(q, UpperMidpoint(x));
      }
    }
  }

  lemma {:induction false} ZeroCompares(q: int, u: nat)
    ensures CompareBinary(0, q, u) <= 0
    ensures CompareBinary(0, q, u) == 0 <==> u == 0
  {
    if q <= 0 {
      CompareFraction(0, q, u);
      MulSignPositive(u, Pow(10, -q));
    } else {
      CompareWhole(0, q, u);
    }
  }

  /** From 10^432 on a number rounds to infinity. */
  lemma {:induction false} HugeRounds(a: nat, q: int, n: nat, x: Pattern)
    requires a >= Pow(10, n) && n + q >= 432
    ensures RoundsTo(a, q, x) <==> x == INFINITY
  {
    HugeCompares(a, q, n);
    if RoundsTo(a, q, x) {
      RoundsToOne(a, q, x, INFINITY);
    }
  }

  lemma {:induction false} TwoAndTen()
    ensures Pow(2, 1075) < Pow(10, 432)
  {
    assert Pow(2, 10) == 1024 by { PowersOfTwo(); }
    assert Pow(10, 4) == 10000;
    PowOfPower(2, 10, 108);
    PowOfPower(10, 4, 108);
    PowBaseMono(1024, 10000, 108);
    PowStrict(2, 1075, 1080);
  }

  lemma {:induction false} LastMidpointBound(x: nat, p: nat)
    requires x == 971 && p == Pow(2, 1075)
    ensures UpperMidpoint(INFINITY - 1) <= p * p
  {
    LastMidpoint(x);
    ScaledIsProduct(2 * TWO_53 - 1, x + 1074);
    assert 2 * TWO_53 == Pow(2, 54) by { PowersOfTwo(); PowAdd(2, 53, 1); }
    MulMono(2 * TWO_53 - 1, 2 * TWO_53, Pow(2, x + 1074));
    PowAdd(2, 54, x + 1074);
    PowMono(2, x + 1128, 2150);
    PowAdd(2, 1075, 1075);
  }

  lemma {:induction false} HugeProduct(a: nat, q: nat, n: nat, p: nat, z: nat)
    requires a >= Pow(10, n) && n + q >= z && 0 < p < Pow(10, z)
    ensures (a * Pow(10, q)) * p > p * p
  {
    PowAdd(10, n, q);
    PowMono(10, z, n + q);
    MulMono(Pow(10, n), a, Pow(10, q));
    MulStrict(p, a * Pow(10, q), p);
  }

  lemma {:induction false} HugeWhole(a: nat, q: int, n: nat, u: nat)
    requires a >= Pow(10, n) && n + q >= 432 && q >= 0 && u <= Pow(2, 1075) * Pow(2, 1075)
    ensures CompareBinary(a, q, u) > 0
  {
    CompareWhole(a, q, u);
    TwoAndTen();
    HugeProduct(a, q, n, Pow(2, 1075), 432);
  }

  lemma {:induction false} BeatsSquare(a: int, p: int, t: int, u: int)
    requires 0 < p && 0 < t && a > p * t && u <= p * p
    ensures a * p > u * t
  {
    MulStrict(p * t, a, p);
    MulMono(u, p * p, t);
    assert (p * t) * p == (p * p) * t;
  }

  lemma {:induction false} HugeQuotient(a: nat, r: nat, n: nat, u: nat, p: nat, z: nat)
    requires a >= Pow(10, n) && n >= z + r && 0 < p < Pow(10, z) && u <= p * p
    ensures a * p > u * Pow(10, r)
  {
    PowAdd(10, z, r);
    PowMono(10, z + r, n);
    MulStrict(p, Pow(10, z), Pow(10, r));
    BeatsSquare(a, p, Pow(10, r), u);
  }

  lemma {:induction false} HugeFraction(a: nat, q: int, n: nat, u: nat)
    requires a >= Pow(10, n) && n + q >= 432 && q < 0 && u <= Pow(2, 1075) * Pow(2, 1075)
    ensures CompareBinary(a, q, u) > 0
  {
    CompareFraction(a, q, u);
    TwoAndTen();
    HugeQuotient(a, -q, n, u, Pow(2, 1075), 432);
  }

  lemma {:induction false} HugeCompares(a: nat, q: int, n: nat)
    requires a >= Pow(10, n) && n + q >= 432
    ensures RoundsTo(a, q, INFINITY)
  {
    LastMidpointBound(971, Pow(2, 1075));
    if q >= 0 {
      HugeWhole(a, q, n, UpperMidpoint(INFINITY - 1));
    } else {
      HugeFraction(a, q, n, UpperMidpoint(INFINITY - 1));
    }
  }

  /** Up to 10^-432 a number rounds to zero. */
  lemma {:induction false} TinyRounds(a: nat, q: int, n: nat, x: Pattern)
    requires a < Pow(10, n) && n + q <= -432
    ensures RoundsTo(a, q, x) <==> x == 0
  {
    TinyCompares(a, q, n);
    if RoundsTo(a, q, x) {
      RoundsToOne(a, q, x, 0);
    }
  }

  lemma {:induction false} TinyQuotient(a: nat, r: nat, n: nat, u: nat, p: nat, z: nat)
    requires a < Pow(10, n) && n + z <= r && 0 < p < Pow(10, z) && u >= 1
    ensures a * p < u * Pow(10, r)
  {
    PowMono(10, n + z, r);
    PowAdd(10, n, z);
    MulBoth(a, Pow(10, n), p, Pow(10, z));
    MulMono(1, u, Pow(10, r));
  }

  lemma {:induction false} TinyCompareValue(a: nat, q: int, n: nat, u: nat)
    requires a < Pow(10, n) && n + q <= -432 && u >= 1
    ensures CompareBinary(a, q, u) < 0
  {
    CompareFraction(a, q, u);
    TwoAndTen();
    TinyQuotient(a, -q, n, u, Pow(2, 1075), 432);
  }

  lemma {:induction false} TinyCompares(a: nat, q: int, n: nat)
    requires a < Pow(10, n) && n + q <= -432
    ensures RoundsTo(a, q, 0)
  {
    MagnitudePositive(1);
    TinyCompareValue(a, q, n, UpperMidpoint(0));
  }

  /** How far the decimal point is to the right of the first significant digit. */
  function PointPosition(lit: StringToDouble.Literal): int {
    |Significant(lit.All())| - |lit.fraction|
  }

  /** The point is too near to the first significant digit to make up for a saturated exponent. */
  predicate PointIsNear(lit: StringToDouble.Literal) {
    433 - StringToDouble.MAX_EXPONENT <= PointPosition(lit) <= StringToDouble.MAX_EXPONENT - 432
  }

  lemma {:induction false} KeptBounds(d: string)
    requires AllDigits(d, 10)
    ensures AllDigits(KeptDigits(d), 10)
    ensures |KeptDigits(d)| + ExponentShift(d) == |d|
    ensures d != [] ==> KeptDigits(d) != [] && KeptDigits(d)[0] == d[0]
  {
  }

  /** Numbers of n digits whose point is far to the left round to zero. */
  lemma {:induction false} TinyDigits(d: string, a: int, q: int, x: Pattern)
    requires AllDigits(d, 10) && a == Value(d, 10) && |d| + q <= -432
    ensures RoundsTo(a, q, x) <==> x == 0
  {
    ValueBound(d, 10);
    TinyRounds(a, q, |d|, x);
  }

  lemma {:induction false} HugeDigits(d: string, a: int, q: int, x: Pattern)
    requires AllDigits(d, 10) && d != [] && d[0] != '0' && a == Value(d, 10) && |d| + q >= 433
    ensures RoundsTo(a, q, x) <==> x == INFINITY
  {
    LeadingDigit(d, 10);
    HugeRounds(a, q, |d| - 1, x);
  }

  /** A saturated exponent sends the literal and its simplified form to the same end of the scale. */
  lemma {:induction false} SaturatedRounds(lit: StringToDouble.Literal, a: int, b: int, q: int, e: int, d: string, x: Pattern)
    requires lit.exponent.magnitude > StringToDouble.MAX_EXPONENT && PointIsNear(lit)
    requires d == Significant(lit.All())
    requires AllDigits(d, 10) && d != [] && d[0] != '0'
    requires a == Value(d, 10) && b == Value(KeptDigits(d), 10)
    requires q == StringToDouble.ExactExponent(lit.exponent) - |lit.fraction|
    requires e == StringToDouble.ClampedExponent(lit.exponent) - |lit.fraction| + ExponentShift(d)
    ensures RoundsTo(a, q, x) <==> RoundsTo(b, e, x)
  {
    KeptBounds(d);
    if lit.exponent.negative {
      TinyDigits(d, a, q, x);
      TinyDigits(KeptDigits(d), b, e, x);
    } else {
      HugeDigits(d, a, q, x);
      HugeDigits(KeptDigits(d), b, e, x);
    }
  }

  /** What is handed to Strtod rounds to the double that the literal rounds to: for a literal of any length
      whose exponent part is not saturated, and for any exponent part if the point is near. */
  lemma {:induction false} ConversionKeepsRounding(lit: StringToDouble.Literal, a: int, b: int, q: int,
                                                   digits: string, e: int, x: Pattern)
    requires AllDigits(lit.All(), 10)
    requires StringToDouble.IsSimplified(lit, digits, e)
    requires a == Value(lit.All(), 10) && b == Value(digits, 10)
    requires q == StringToDouble.ExactExponent(lit.exponent) - |lit.fraction|
    requires lit.exponent.magnitude <= StringToDouble.MAX_EXPONENT || PointIsNear(lit)
    ensures RoundsTo(a, q, x) <==> RoundsTo(b, e, x)
  {
    var d := Significant(lit.All());
    SignificantValue(lit.All());
    if d == [] {
      ZeroRounds(q, e, x);
    } else if lit.exponent.magnitude <= StringToDouble.MAX_EXPONENT {
      SimplificationKeepsRounding(lit.All(), a, b, q, e, x);
    } else {
      SaturatedRounds(lit, a, b, q, e, d, x);
    }
  }

  /** The longest string that the engine allocates. */
  const MAX_STRING_LENGTH: nat := 0x1000_0000 - 16

  /** In every such string the point of a literal is near. */
  lemma {:induction false} PointIsNearInStrings(s: string, i: nat)
    requires |s| <= MAX_STRING_LENGTH && i <= |s|
    ensures PointIsNear(StringToDouble.ScanLiteral(s, i))
  {
    var lit := StringToDouble.ScanLiteral(s, i);
    assert |lit.All()| == |lit.integer| + |lit.fraction|;
  }

  lemma {:induction false} LiteralDigits(s: string, i: nat)
    requires i <= |s|
    ensures AllDigits(StringToDouble.ScanLiteral(s, i).All(), 10)
  {
  }

  /** The digits and the exponent that the conversion hands on for a decimal literal in a string round to
      the double that the literal rounds to. */
  lemma {:induction false} DecimalRoundsAsWritten(r: StringToDouble.Outcome, space: char -> bool, s: string, i: nat,
                                                  flags: StringToDouble.Flags, negative: bool,
                                                  lit: StringToDouble.Literal, a: int, b: int, q: int, x: Pattern)
    requires i <= |s| <= MAX_STRING_LENGTH && lit == StringToDouble.ScanLiteral(s, i)
    requires StringToDouble.CorrectDecimal(r, space, s, i, flags, negative) && r.Decimal?
    requires a == Value(lit.All(), 10) && q == StringToDouble.ExactExponent(lit.exponent) - |lit.fraction|
    requires b == Value(r.digits, 10)
    ensures RoundsTo(a, q, x) <==> RoundsTo(b, r.tens, x)
  {
    DecimalIsSimplified(r, space, s, i, flags, negative);
    LiteralDigits(s, i);
    PointIsNearInStrings(s, i);
    ConversionKeepsRounding(lit, a, b, q, r.digits, r.tens, x);
  }

  // ----- counters -----

  lemma {:induction false} DecimalIsSimplified(r: StringToDouble.Outcome, space: char -> bool, s: string, i: nat,
                                               flags: StringToDouble.Flags, negative: bool)
    requires i <= |s|
    requires StringToDouble.CorrectDecimal(r, space, s, i, flags, negative) && r.Decimal?
    ensures StringToDouble.IsSimplified(StringToDouble.ScanLiteral(s, i), r.digits, r.tens)
  {
  }

  /** The exponent of the decimal conversion at each step: lowered by digits of the fraction, moved by the
      exponent part x, raised by dropped digits and lowered by the sticky one. */
  lemma {:induction false} ExponentStepsFit(x: StringToDouble.ExponentPart, lowered: nat, raised: nat)
    requires lowered <= MAX_STRING_LENGTH && raised <= MAX_STRING_LENGTH
    ensures FitsInt(0 - lowered)
    ensures var e := StringToDouble.ClampedExponent(x) - lowered;
            FitsInt(e) && FitsInt(e + raised) && FitsInt(e + raised - 1)
  {
  }

  /** The digits and the exponent that are handed on. */
  lemma {:induction false} DecimalExponentFits(r: StringToDouble.Outcome, space: char -> bool, s: string, i: nat,
                                               flags: StringToDouble.Flags, negative: bool)
    requires i <= |s| <= MAX_STRING_LENGTH
    requires StringToDouble.CorrectDecimal(r, space, s, i, flags, negative) && r.Decimal?
    ensures |r.digits| <= MAX_SIGNIFICANT_DIGITS + 1 && FitsInt(r.tens)
  {
    DecimalIsSimplified(r, space, s, i, flags, negative);
    SimplifiedFits(StringToDouble.ScanLiteral(s, i), r.digits, r.tens, |s|);
  }

  lemma {:induction false} SimplifiedFits(lit: StringToDouble.Literal, digits: string, e: int, n: nat)
    requires StringToDouble.IsSimplified(lit, digits, e)
    requires |lit.integer| + |lit.fraction| <= n <= MAX_STRING_LENGTH
    ensures |digits| <= MAX_SIGNIFICANT_DIGITS + 1 && FitsInt(e)
  {
    var d := Significant(lit.All());
    assert |d| <= |lit.integer| + |lit.fraction|;
    ShiftBounds(d);
    ExponentStepsFit(lit.exponent, |lit.fraction|, ExponentShift(d));
  }

  lemma {:induction false} ShiftBounds(d: string)
    ensures |KeptDigits(d)| <= MAX_SIGNIFICANT_DIGITS + 1 && 0 <= ExponentShift(d) <= |d|
  {
  }

  /** A rounding is not far above the number. */
  lemma {:induction false} RoundingExponent(n: nat, m: nat, e: nat, k: nat)
    requires IsRounding(n, m, e) && n < Pow(2, k)
    ensures e <= k
  {
    assert Distance(n, m, e) <= Distance(n, 0, 0);
    if e > k {
      ScaledIsProduct(m, e);
      PowMono(2, k + 1, e);
      MulMono(2, m, Pow(2, e));
    }
  }

  lemma {:induction false} DigitsBelowPower(d: string, k: nat, radix: nat)
    requires 1 <= k <= 5 && radix == Pow(2, k) && AllDigits(d, radix) && |d| <= MAX_STRING_LENGTH
    ensures Value(d, radix) < Pow(2, k * |d|)
    ensures k * |d| <= 5 * MAX_STRING_LENGTH
  {
    PowerOfTwoRadix.SmallPower(k);
    ValueBound(d, radix);
    PowOfPower(2, k, |d|);
    MulMono(k, 5, |d|);
  }

  /** The binary exponent, which only grows on the way to its last value. */
  lemma {:induction false} BinaryExponentFits(r: PowerOfTwoRadix.Result, space: char -> bool, s: string, start: nat,
                                              k: nat, radix: nat, negative: bool, junk: bool)
    requires start <= |s| <= MAX_STRING_LENGTH && 1 <= k <= 5 && radix == Pow(2, k)
    requires PowerOfTwoRadix.Correct(r, space, s, start, radix, negative, junk) && r.Binary?
    ensures FitsInt(r.exponent)
  {
    var d := PowerOfTwoRadix.Literal(s, start, radix);
    DigitsBelowPower(d, k, radix);
    RoundingExponent(Value(d, radix), r.number, r.exponent, k * |d|);
  }

  // ----- when saturation keeps the rounding -----

  lemma {:induction false} TenTimes(a: int, t: int, p: int)
    ensures (a * (10 * t)) * p == 10 * ((a * t) * p)
  {
    assert a * (10 * t) == 10 * (a * t);
  }

  lemma {:induction false} ScaleStep(a: int, q: int, u: int)
    ensures SameSign(CompareBinary(a, q + 1, 10 * u), CompareBinary(a, q, u))
  {
    if q >= 0 {
      CompareWhole(a, q, u);
      CompareWhole(a, q + 1, 10 * u);
      TenTimes(a, Pow(10, q), Pow(2, 1075));
    } else {
      CompareFraction(a, q, u);
      CompareFraction(a, q + 1, 10 * u);
      assert 10 * u * Pow(10, -q - 1) == u * Pow(10, -q) by { MulAssoc(u, 10, Pow(10, -q - 1)); }
    }
  }

  lemma {:induction false} ScaleUp(a: int, q: int, n: nat, u: nat) returns (v: nat)
    ensures SameSign(CompareBinary(a, q + n, v), CompareBinary(a, q, u))
    ensures if n == 0 then v == u else v >= 10 * u
    decreases n
  {
    v := u;
    if n > 0 {
      var w := ScaleUp(a, q, n - 1, u);
      ScaleStep(a, q + n - 1, w);
      v := 10 * w;
    }
  }

  /** Between two powers of ten the scale moves by a factor of at least ten. */
  lemma {:induction false} FactorTen(a: int, q: int, p: int, u: nat, v: nat)
    requires q < p && CompareBinary(a, q, u) >= 0 && v < 10 * u
    ensures CompareBinary(a, p, v) > 0
  {
    var w := ScaleUp(a, q, p - q, u);
    CompareDecreasing(a, p, v, w);
  }

  lemma {:induction false} LargerPower(a: int, q: int, p: int, u: nat)
    requires q < p && u > 0
    ensures CompareBinary(a, q, u) >= 0 ==> CompareBinary(a, p, u) > 0
  {
    if CompareBinary(a, q, u) >= 0 {
      FactorTen(a, q, p, u, u);
    }
  }

  /** The two midpoints around a double are less than a factor of ten apart. */
  lemma {:induction false} MidpointsAreClose(x: Pattern)
    requires 0 < x < INFINITY
    ensures UpperMidpoint(x) < 10 * UpperMidpoint(x - 1)
  {
    MagnitudePositive(x);
    NextMagnitude(x);
    UlpIsSmall(Significand(x), Exponent(x) - DENORMAL_EXPONENT);
  }

  lemma {:induction false} UlpIsSmall(f: nat, e: nat)
    requires Scaled(f, e) > 0
    ensures Pow(2, e) <= Scaled(f, e)
  {
    ScaledIsProduct(f, e);
    if f > 0 { MulMono(1, f, Pow(2, e)); }
  }

  /** Two different powers of ten bring no number to the same double, but for zero and infinity. */
  lemma {:induction false} OnlyEndsAreShared(a: int, q: int, p: int, x: Pattern)
    requires q < p && RoundsTo(a, q, x) && RoundsTo(a, p, x)
    ensures x == 0 || x == INFINITY
  {
    if 0 < x < INFINITY {
      MidpointsAreClose(x);
      FactorTen(a, q, p, UpperMidpoint(x - 1), UpperMidpoint(x));
    }
  }

  /** a * 10^q reaches the midpoint above the largest double. */
  ghost predicate Overflows(a: int, q: int) {
    CompareBinary(a, q, UpperMidpoint(INFINITY - 1)) >= 0
  }

  /** a * 10^q is at most half the least double. */
  ghost predicate Underflows(a: int, q: int) {
    CompareBinary(a, q, UpperMidpoint(0)) <= 0
  }

  lemma {:induction false} EndsOfTheScale(a: int, q: int)
    ensures RoundsTo(a, q, INFINITY) <==> Overflows(a, q)
    ensures RoundsTo(a, q, 0) <==> Underflows(a, q)
  {
  }

  /** The two numbers round to the same double. */
  ghost predicate SameRounding(a: int, q: int, b: int, e: int) {
    forall x: Pattern :: RoundsTo(a, q, x) <==> RoundsTo(b, e, x)
  }

  lemma {:induction false} SameByWitness(a: int, q: int, b: int, e: int, y: Pattern)
    requires RoundsTo(a, q, y) && RoundsTo(b, e, y)
    ensures SameRounding(a, q, b, e)
  {
    forall x: Pattern
      ensures RoundsTo(a, q, x) <==> RoundsTo(b, e, x)
    {
      if RoundsTo(a, q, x) { RoundsToOne(a, q, x, y); }
      if RoundsTo(b, e, x) { RoundsToOne(b, e, x, y); }
    }
  }

  lemma {:induction false} EndsAreMonotone(a: int, q: int, p: int)
    requires q < p
    ensures Overflows(a, q) ==> Overflows(a, p)
    ensures Underflows(a, p) ==> Underflows(a, q)
  {
    Increasing(INFINITY - 1, INFINITY);
    Increasing(0, 1);
    LargerPower(a, q, p, UpperMidpoint(INFINITY - 1));
    LargerPower(a, q, p, UpperMidpoint(0));
  }

  /** A change of the power of ten keeps the rounding exactly if both numbers are off the same end. */
  lemma {:induction false} WhenScalingKeepsRounding(a: int, q: int, p: int)
    requires q < p
    ensures SameRounding(a, q, a, p) <==> Overflows(a, q) || Underflows(a, p)
  {
    EndsOfTheScale(a, q);
    EndsOfTheScale(a, p);
    EndsAreMonotone(a, q, p);
    if Overflows(a, q) {
      SameByWitness(a, q, a, p, INFINITY);
    } else if Underflows(a, p) {
      SameByWitness(a, q, a, p, 0);
    } else if SameRounding(a, q, a, p) {
      var x := RoundsToSome(a, q, 0);
      OnlyEndsAreShared(a, q, p, x);
    }
  }

  lemma {:induction false} SameRoundingSwaps(a: int, q: int, p: int, b: int, e: int)
    requires SameRounding(a, p, b, e)
    ensures SameRounding(a, q, b, e) <==> SameRounding(a, q, a, p)
    ensures Overflows(a, p) <==> Overflows(b, e)
    ensures Underflows(a, p) <==> Underflows(b, e)
  {
    EndsOfTheScale(a, p);
    EndsOfTheScale(b, e);
  }

  lemma {:induction false} SameRoundingSymmetric(a: int, q: int, b: int, e: int)
    ensures SameRounding(a, q, b, e) <==> SameRounding(b, e, a, q)
  {
  }

  /** A saturated exponent keeps the rounding of a nonzero literal exactly if, for a positive one, the
      simplified form overflows all the same or the literal underflows in spite of its exponent; and the other
      way round for a negative one. */
  lemma {:induction false} WhenSaturationKeepsRounding(lit: StringToDouble.Literal, a: int, b: int, q: int,
                                                       digits: string, e: int)
    requires AllDigits(lit.All(), 10) && Significant(lit.All()) != []
    requires lit.exponent.magnitude > StringToDouble.MAX_EXPONENT
    requires StringToDouble.IsSimplified(lit, digits, e)
    requires a == Value(lit.All(), 10) && b == Value(digits, 10)
    requires q == StringToDouble.ExactExponent(lit.exponent) - |lit.fraction|
    ensures SameRounding(a, q, b, e) <==>
            if lit.exponent.negative then Overflows(a, q) || Underflows(b, e) else Overflows(b, e) || Underflows(a, q)
  {
    var p := StringToDouble.ClampedExponent(lit.exponent) - |lit.fraction|;
    forall x: Pattern
      ensures RoundsTo(a, p, x) <==> RoundsTo(b, e, x)
    {
      SimplificationKeepsRounding(lit.All(), a, b, p, e, x);
    }
    SameRoundingSwaps(a, q, p, b, e);
    if lit.exponent.negative {
      WhenScalingKeepsRounding(a, q, p);
    } else {
      WhenScalingKeepsRounding(a, p, q);
      SameRoundingSymmetric(a, q, a, p);
    }
  }

  /** The pattern of the double one. */
  predicate IsOne(x: Pattern) {
    Significand(x) == TWO_52 && Exponent(x) == -52 && Sign(x) == 1
  }

  /** A point that is far away: .00...01 with as large an exponent is one, but the saturated exponent leaves
      the simplified form at zero. */
  lemma {:induction false} SaturationLosesPoint(lit: StringToDouble.Literal, zeros: string, b: int, digits: string, e: int,
                                                one: Pattern)
    requires AllZero(zeros) && |zeros| >= StringToDouble.MAX_EXPONENT + 432
    requires lit.integer == "" && lit.fraction == zeros + "1"
    requires lit.exponent.magnitude == |zeros| + 1 && !lit.exponent.negative
    requires StringToDouble.IsSimplified(lit, digits, e) && b == Value(digits, 10) && IsOne(one)
    ensures Value(lit.All(), 10) == 1 && StringToDouble.ExactExponent(lit.exponent) - |lit.fraction| == 0
    ensures RoundsTo(1, 0, one)
    ensures RoundsTo(b, e, 0) && !RoundsTo(b, e, one)
  {
    FarPoint(lit, zeros, "1", digits, e);
    OneRounds(1, one);
    TinyOne(b, e, one);
  }

  lemma {:induction false} FarPoint(lit: StringToDouble.Literal, zeros: string, one: string, digits: string, e: int)
    requires AllZero(zeros) && |one| == 1 && one[0] == '1'
    requires lit.integer == "" && lit.fraction == zeros + one
    requires lit.exponent.magnitude == |zeros| + 1 > StringToDouble.MAX_EXPONENT && !lit.exponent.negative
    requires StringToDouble.IsSimplified(lit, digits, e)
    ensures Value(lit.All(), 10) == 1
    ensures Value(digits, 10) == 1 && e == StringToDouble.MAX_EXPONENT - |zeros| - 1
  {
    OneDigit(one);
    LoneDigit(zeros, one);
    assert lit.All() == zeros + one;
  }

  lemma {:induction false} TinyOne(b: int, e: int, one: Pattern)
    requires b == 1 && e <= -433 && IsOne(one)
    ensures RoundsTo(b, e, 0) && !RoundsTo(b, e, one)
  {
    assert Pow(10, 1) == 10;
    TinyRounds(b, e, 1, 0);
    TinyRounds(b, e, 1, one);
  }

  lemma {:induction false} OneDigit(d: string)
    requires |d| == 1 && d[0] == '1'
    ensures Value(d, 10) == 1 && KeptDigits(d) == d && ExponentShift(d) == 0
  {
    assert d[..0] == [] && Value(d[..0], 10) == 0;
  }

  lemma {:induction false} LoneDigit(zeros: string, d: string)
    requires AllZero(zeros) && |d| == 1 && d[0] == '1'
    ensures Value(zeros + d, 10) == 1 && Significant(zeros + d) == d
  {
    OneDigit(d);
    SignificantOf(zeros, d);
    SignificantValue(zeros + d);
  }

  lemma {:induction false} OneIsFinite(one: Pattern)
    requires IsOne(one)
    ensures one < INFINITY && Magnitude(one) == Scaled(TWO_52, 1022)
  {
  }

  lemma {:induction false} OneRounds(n: nat, one: Pattern)
    requires n == 1 && IsOne(one)
    ensures RoundsTo(n, 0, one)
  {
    OneIsFinite(one);
    OneMagnitude(n, 1022);
    SmallRounds(n, one);
  }

  lemma {:induction false} OneMagnitude(n: nat, x: nat)
    requires n == 1
    ensures Scaled(TWO_52, x) == Scaled(n, x + 52)
  {
    ScaledIsProduct(TWO_52, x);
    ScaledIsProduct(n, x + 52);
    PowersOfTwo();
    PowAdd(2, 52, x);
  }
}
