/** Exact comparison of numbers a * 10^p, and the rounding of such a number to a double. */
module DecimalOrder {
  import opened Arithmetic
  import opened Rounding
  import opened Doubles
  import opened DiyFps

  /** Positive, zero or negative as a * 10^p is above, equal to or below b * 10^q. */
  function Compare(a: int, p: int, b: int, q: int): int {
    a * Pow(10, Max(p - q, 0)) - b * Pow(10, Max(q - p, 0))
  }

  predicate SameSign(x: int, y: int) {
    (x > 0 <==> y > 0) && (x < 0 <==> y < 0)
  }

  /** a * 10^p in units of 10^c. */
  function At(a: int, p: int, c: int): int
    requires c <= p
  {
    a * Pow(10, p - c)
  }

  lemma {:induction false} SignOfProduct(x: int, k: int)
    requires 0 < k
    ensures SameSign(x * k, x)
  {
    MulSignPositive(x, k);
  }

  lemma {:induction false} AtStep(a: int, p: int, m: int, c: int)
    requires c <= m <= p
    ensures At(a, p, c) == At(a, p, m) * Pow(10, m - c)
  {
    PowAdd(10, p - m, m - c);
    MulAssoc(a, Pow(10, p - m), Pow(10, m - c));
  }

  /** Any common unit decides the comparison. */
  lemma {:induction false} CompareAt(a: int, p: int, b: int, q: int, c: int)
    requires c <= p && c <= q
    ensures SameSign(Compare(a, p, b, q), At(a, p, c) - At(b, q, c))
  {
    var m := Min(p, q);
    AtStep(a, p, m, c);
    AtStep(b, q, m, c);
    var x, y, k := At(a, p, m), At(b, q, m), Pow(10, m - c);
    assert x * k - y * k == (x - y) * k;
    assert Compare(a, p, b, q) == x - y;
    SignOfProduct(x - y, k);
  }

  /** Positive, zero or negative as a * 10^q is above, equal to or below u / 2^1075. */
  function CompareBinary(a: int, q: int, u: int): int {
    Product(Product(a, Pow(10, Max(q, 0))), Pow(2, 1075)) - Product(u, Pow(10, Max(-q, 0)))
  }

  lemma {:induction false} CompareBinaryIs(a: int, q: int, u: int)
    ensures CompareBinary(a, q, u) == (a * Pow(10, Max(q, 0))) * Pow(2, 1075) - u * Pow(10, Max(-q, 0))
  {
    ProductIs(a, Pow(10, Max(q, 0)));
    ProductIs(a * Pow(10, Max(q, 0)), Pow(2, 1075));
    ProductIs(u, Pow(10, Max(-q, 0)));
  }

  lemma {:induction false} CompareFraction(a: int, q: int, u: int)
    requires q <= 0
    ensures CompareBinary(a, q, u) == a * Pow(2, 1075) - u * Pow(10, -q)
  {
    CompareBinaryIs(a, q, u);
  }

  lemma {:induction false} CompareWhole(a: int, q: int, u: int)
    requires q >= 0
    ensures CompareBinary(a, q, u) == (a * Pow(10, q)) * Pow(2, 1075) - u
  {
    CompareBinaryIs(a, q, u);
  }

  /** A number that compares as below and above with the midpoints to the two neighbours of d goes to d: a
      midpoint goes to the even pattern. */
  predicate Takes(d: Pattern, below: int, above: int) {
    && (d > 0 ==> below > 0 || (below == 0 && d % 2 == 0))
    && (d < INFINITY ==> above < 0 || (above == 0 && d % 2 == 0))
  }

  /** a * 10^q rounds to the double d: it lies between the midpoints to the two neighbours of d. INFINITY
      takes everything from the last midpoint on. */
  ghost predicate RoundsTo(a: int, q: int, d: Pattern) {
    d <= INFINITY
    && Takes(d,
             if d > 0 then CompareBinary(a, q, UpperMidpoint(d - 1)) else 1,
             if d < INFINITY then CompareBinary(a, q, UpperMidpoint(d)) else -1)
  }

  lemma {:induction false} SidesDecide(a: int, q: int, d: Pattern, below: int, above: int)
    requires d <= INFINITY
    requires d > 0 ==> below == CompareBinary(a, q, UpperMidpoint(d - 1))
    requires d < INFINITY ==> above == CompareBinary(a, q, UpperMidpoint(d))
    ensures RoundsTo(a, q, d) <==> Takes(d, below, above)
  {
  }

  // ----- every midpoint is a decimal of at most 772 digits -----

  lemma {:induction false} FivePowers()
    ensures Pow(5, 1075) <= Pow(10, 753)
  {
    assert Pow(5, 10) <= Pow(10, 7) by { PowAdd(5, 5, 5); PowAdd(10, 4, 3); }
    PowBaseMono(Pow(5, 10), Pow(10, 7), 107);
    PowOfPower(5, 10, 107);
    PowOfPower(10, 7, 107);
    PowAdd(5, 1070, 5);
    PowAdd(10, 749, 4);
    MulMono(Pow(5, 1070), Pow(10, 749), 3125);
  }

  lemma {:induction false} ShortNegative(m: nat, y: nat)
    requires m < TWO_54 && y <= 1075
    ensures m * Pow(5, y) < Pow(10, 772)
  {
    FivePowers();
    TenTo19();
    PowMono(5, y, 1075);
    MulMono(m, Pow(10, 19) - 1, Pow(5, y));
    MulMono(Pow(5, y), Pow(10, 753), Pow(10, 19) - 1);
    PowAdd(10, 19, 753);
    MulStrict(Pow(10, 19) - 1, Pow(10, 19), Pow(10, 753));
  }

  lemma {:induction false} TenTo19()
    ensures TWO_54 < Pow(10, 19)
  {
    PowAdd(10, 9, 10);
    PowAdd(10, 5, 5);
    PowAdd(10, 5, 4);
  }

  lemma {:induction false} TwoPowers()
    ensures Pow(2, 1024) < Pow(10, 772)
  {
    assert Pow(2, 4) == 16;
    PowOfPower(2, 4, 256);
    PowBaseMono(16, 100, 256);
    assert Pow(10, 2) == 100;
    PowOfPower(10, 2, 256);
    PowStrict(10, 512, 772);
  }

  lemma {:induction false} ShortPositive(m: nat, y: nat)
    requires m < TWO_54 && y <= 970
    ensures m * Pow(2, y) < Pow(10, 772)
  {
    TwoPowers();
    assert TWO_54 == Pow(2, 54) by { PowersOfTwo(); PowAdd(2, 53, 1); }
    PowAdd(2, 54, y);
    PowMono(2, 54 + y, 1024);
    MulMono(m, TWO_54, Pow(2, y));
  }

  /** A binary number m * 2^x / 2^1075 as a decimal. */
  function DecimalDigits(m: nat, x: nat): nat {
    if x <= 1075 then m * Pow(5, 1075 - x) else m * Pow(2, x - 1075)
  }

  function DecimalExponent(x: nat): int {
    if x <= 1075 then x - 1075 else 0
  }

  lemma {:induction false} FractionAsDecimal(a: int, q: int, m: nat, x: nat, y: nat)
    requires x + y == 1075
    ensures SameSign(CompareBinary(a, q, m * Pow(2, x)), Compare(a, q, m * Pow(5, y), x - 1075))
  {
    var u, v, t := Pow(10, Max(q, 0)), Pow(10, Max(-q, 0)), m * Pow(5, y);
    CompareBinaryIs(a, q, m * Pow(2, x));
    var c := Min(q, 0) - y;
    assert CompareBinary(a, q, m * Pow(2, x)) == (a * u) * (Pow(2, x) * Pow(2, y)) - (m * Pow(2, x)) * v by {
      PowAdd(2, x, y);
    }
    FactorOut(a * u, Pow(2, x), Pow(2, y), m, v, Pow(5, y));
    assert At(a, q, c) == (a * u) * (Pow(2, y) * Pow(5, y)) by {
      PowOfProduct(2, 5, y);
      PowAdd(10, Max(q, 0), y);
      MulAssoc(a, u, Pow(10, y));
    }
    assert At(t, x - 1075, c) == t * v;
    CompareAt(a, q, t, x - 1075, c);
  }

  lemma {:induction false} IntegerAsDecimal(a: int, q: int, m: nat, z: nat)
    ensures SameSign(CompareBinary(a, q, m * Pow(2, 1075 + z)), Compare(a, q, m * Pow(2, z), 0))
  {
    var u, v, t, p := Pow(10, Max(q, 0)), Pow(10, Max(-q, 0)), m * Pow(2, z), Pow(2, 1075);
    CompareBinaryIs(a, q, m * Pow(2, 1075 + z));
    assert m * Pow(2, 1075 + z) == t * p by {
      PowAdd(2, z, 1075);
      MulAssoc(m, Pow(2, z), p);
    }
    FactorOut(a * u, p, 1, t, v, 1);
    assert At(a, q, Min(q, 0)) == a * u;
    assert At(t, 0, Min(q, 0)) == t * v;
    CompareAt(a, q, t, 0, Min(q, 0));
  }

  lemma {:induction false} BinaryAsDecimal(a: int, q: int, m: nat, x: nat)
    ensures SameSign(CompareBinary(a, q, m * Pow(2, x)), Compare(a, q, DecimalDigits(m, x), DecimalExponent(x)))
  {
    if x <= 1075 {
      FractionAsDecimal(a, q, m, x, 1075 - x);
    } else {
      IntegerAsDecimal(a, q, m, x - 1075);
    }
  }

  /** w * (p * r) - (m * p) * v has the sign of w * (r * f) - (m * f) * v. */
  lemma {:induction false} FactorOut(w: int, p: int, r: int, m: int, v: int, f: int)
    requires 0 < p && 0 < f
    ensures SameSign(w * (p * r) - (m * p) * v, w * (r * f) - (m * f) * v)
  {
    var z := w * r - m * v;
    calc {
      w * (p * r) - (m * p) * v;
      { assert w * (p * r) == (w * r) * p; assert (m * p) * v == (m * v) * p; }
      (w * r) * p - (m * v) * p;
      z * p;
    }
    calc {
      w * (r * f) - (m * f) * v;
      { assert w * (r * f) == (w * r) * f; assert (m * f) * v == (m * v) * f; }
      (w * r) * f - (m * v) * f;
      z * f;
    }
    SignOfProduct(z, p);
    SignOfProduct(z, f);
  }

  lemma {:induction false} MidpointDigits(d: Pattern, m: nat, x: nat)
    requires d < INFINITY && m < TWO_54 && x == Exponent(d) - DENORMAL_EXPONENT
    ensures DecimalDigits(m, x) < Pow(10, 772)
  {
    if x <= 1075 {
      ShortNegative(m, 1075 - x);
    } else {
      FiniteExponent(d);
      ShortPositive(m, x - 1075);
    }
  }

  lemma {:induction false} MidpointAsDecimal(d: Pattern, m: nat, x: nat)
    requires d < INFINITY && m == 2 * Significand(d) + 1 && x == Exponent(d) - DENORMAL_EXPONENT
    ensures forall b, r :: SameSign(CompareBinary(b, r, UpperMidpoint(d)), Compare(b, r, DecimalDigits(m, x), DecimalExponent(x)))
  {
    UpperMidpointValue(d);
    ScaledIsProduct(m, x);
    forall b, r
      ensures SameSign(CompareBinary(b, r, UpperMidpoint(d)), Compare(b, r, DecimalDigits(m, x), DecimalExponent(x)))
    {
      BinaryAsDecimal(b, r, m, x);
    }
  }

  /** Comparing with the midpoint above d is comparing with a decimal of at most 772 significant digits. */
  lemma {:induction false} MidpointIsShort(d: Pattern) returns (t: nat, k: int)
    requires d < INFINITY
    ensures t < Pow(10, 772)
    ensures forall b, r :: SameSign(CompareBinary(b, r, UpperMidpoint(d)), Compare(b, r, t, k))
  {
    var m, x := 2 * Significand(d) + 1, Exponent(d) - DENORMAL_EXPONENT;
    t, k := DecimalDigits(m, x), DecimalExponent(x);
    MidpointDigits(d, m, x);
    MidpointAsDecimal(d, m, x);
  }

  lemma {:induction false} FiniteExponent(d: Pattern)
    requires d < INFINITY
    ensures Exponent(d) < MAX_EXPONENT
  {
  }

  /** a * 10^p and b * 10^q compare alike with every decimal of at most 772 significant digits. */
  ghost predicate SameOrder(a: int, p: int, b: int, q: int) {
    forall t: nat, k: int :: t < Pow(10, 772) ==> SameSign(Compare(a, p, t, k), Compare(b, q, t, k))
  }

  lemma {:induction false} SameOrderSameSide(a: int, p: int, b: int, q: int, d: Pattern)
    requires SameOrder(a, p, b, q) && d < INFINITY
    ensures SameSign(CompareBinary(a, p, UpperMidpoint(d)), CompareBinary(b, q, UpperMidpoint(d)))
  {
    var t, k := MidpointIsShort(d);
    assert SameSign(CompareBinary(a, p, UpperMidpoint(d)), Compare(a, p, t, k));
    assert SameSign(CompareBinary(b, q, UpperMidpoint(d)), Compare(b, q, t, k));
  }

  lemma {:induction false} SameOrderSameRounding(a: int, p: int, b: int, q: int, d: Pattern)
    requires SameOrder(a, p, b, q)
    ensures RoundsTo(a, p, d) == RoundsTo(b, q, d)
  {
    if 0 < d <= INFINITY { SameOrderSameSide(a, p, b, q, d - 1); }
    if d < INFINITY { SameOrderSameSide(a, p, b, q, d); }
  }
}
