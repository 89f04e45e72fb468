/** Cutting a decimal literal down to 772 significant digits and a sticky one. */
module DecimalSimplification {
  import opened Arithmetic
  import opened Digits
  import opened Doubles
  import opened DecimalOrder

  const MAX_SIGNIFICANT_DIGITS: nat := 772

  /** A digit string without its leading zeros. */
  function Significant(all: string): (d: string)
    ensures |d| <= |all| && d == all[|all| - |d|..]
    ensures AllZero(all[..|all| - |d|])
    ensures d != [] ==> d[0] != '0'
  {
    if all != [] && all[0] == '0' then
      var d := Significant(all[1..]);
      OneMoreZero(all, d);
      d
    else all
  }

  lemma {:induction false} OneMoreZero(all: string, d: string)
    requires all != [] && all[0] == '0' && |d| < |all|
    requires d == all[1..][|all| - 1 - |d|..] && AllZero(all[1..][..|all| - 1 - |d|])
    ensures d == all[|all| - |d|..] && AllZero(all[..|all| - |d|])
  {
    var n := |all| - |d|;
    var front, rest := all[..n], all[1..][..n - 1];
    assert front == [all[0]] + rest;
  }

  lemma {:induction false} SignificantValue(all: string)
    ensures Value(Significant(all), 10) == Value(all, 10)
    ensures AllDigits(all, 10) ==> AllDigits(Significant(all), 10)
  {
    var d := Significant(all);
    assert all == all[..|all| - |d|] + d;
    DropLeadingZeros(all[..|all| - |d|], d, 10);
  }

  lemma {:induction false} SignificantOf(zeros: string, d: string)
    requires AllZero(zeros) && (d != [] ==> d[0] != '0')
    ensures Significant(zeros + d) == d
  {
    if zeros == [] {
      assert zeros + d == d;
    } else {
      assert (zeros + d)[1..] == zeros[1..] + d;
      SignificantOf(zeros[1..], d);
    }
  }

  /** The digits that are passed to Strtod: the first 772, and a 1 if a nonzero digit was dropped. */
  function KeptDigits(d: string): string {
    if |d| <= MAX_SIGNIFICANT_DIGITS then d
    else if AllZero(d[MAX_SIGNIFICANT_DIGITS..]) then d[..MAX_SIGNIFICANT_DIGITS]
    else d[..MAX_SIGNIFICANT_DIGITS] + "1"
  }

  /** How much the exponent grows in return. */
  function ExponentShift(d: string): int {
    if |d| <= MAX_SIGNIFICANT_DIGITS then 0
    else |d| - MAX_SIGNIFICANT_DIGITS - (if AllZero(d[MAX_SIGNIFICANT_DIGITS..]) then 0 else 1)
  }

  /** The digits of a number in a gap between two neighbouring numbers of n digits say nothing about its
      order with respect to numbers of at most n digits. */
  lemma {:induction false} StickyDigit(b: nat, k: nat, r: nat, q: int, n: nat, t: nat, x: int)
    requires 0 < n && Pow(10, n - 1) <= b
    requires 0 < k && 0 < r < Pow(10, k)
    requires t < Pow(10, n)
    ensures SameSign(Compare(b * Pow(10, k) + r, q, t, x), Compare(10 * b + 1, q + k - 1, t, x))
  {
    var c := Min(q, x);
    var unit := q + k;
    CompareAt(b * Pow(10, k) + r, q, t, x, c);
    CompareAt(10 * b + 1, unit - 1, t, x, c);
    if x >= unit {
      OnTheGrid(b, k, r, t * Pow(10, x - unit), Pow(10, q - c));
      AtStep(t, x, unit, c);
      PowAdd(10, k, q - c);
      PowAdd(10, k - 1, q - c);
      assert At(t, x, c) == (t * Pow(10, x - unit)) * (Pow(10, k) * Pow(10, q - c));
      assert At(10 * b + 1, unit - 1, c) == (10 * b + 1) * (Pow(10, k - 1) * Pow(10, q - c));
      assert At(b * Pow(10, k) + r, q, c) == (b * Pow(10, k) + r) * Pow(10, q - c);
    } else {
      BelowTheGrid(b, unit, n, t, x, c);
      assert At(b * Pow(10, k) + r, q, c) >= At(b, unit, c) by {
        PowAdd(10, k, q - c);
        MulAssoc(b, Pow(10, k), Pow(10, q - c));
        MulMono(b * Pow(10, k), b * Pow(10, k) + r, Pow(10, q - c));
      }
      assert At(10 * b + 1, unit - 1, c) > At(b, unit, c) by {
        MulAssoc(b, 10, Pow(10, unit - 1 - c));
        MulStrict(10 * b, 10 * b + 1, Pow(10, unit - 1 - c));
      }
      assert At(b * Pow(10, k) + r, q, c) > At(t, x, c) by {
        MulStrict(b * Pow(10, k), b * Pow(10, k) + r, Pow(10, q - c));
        PowAdd(10, k, q - c);
        MulAssoc(b, Pow(10, k), Pow(10, q - c));
      }
    }
  }

  /** y is a whole number of units; b and a fraction compares with it as b and a tenth does. */
  lemma {:induction false} OnTheGrid(b: int, k: nat, r: int, y: int, s: nat)
    requires 0 < k && 0 < r < Pow(10, k) && 0 < s
    ensures SameSign((b * Pow(10, k) + r) * s - y * (Pow(10, k) * s),
                     (10 * b + 1) * (Pow(10, k - 1) * s) - y * (Pow(10, k) * s))
  {
    var p, h := Pow(10, k), Pow(10, k - 1);
    var z := b - y;
    assert (b * p + r) * s - y * (p * s) == (z * p + r) * s;
    assert (10 * b + 1) * (h * s) - y * (p * s) == ((10 * z + 1) * h) * s;
    if z >= 0 { MulMono(0, z, p); } else { MulMono(z, -1, p); }
    SignOfProduct(z * p + r, s);
    SignOfProduct(10 * z + 1, h);
    SignOfProduct((10 * z + 1) * h, s);
  }

  /** A number of at most n digits whose unit is below the last digit of b is at most b. */
  lemma {:induction false} BelowTheGrid(b: nat, unit: int, n: nat, t: nat, x: int, c: int)
    requires 0 < n && Pow(10, n - 1) <= b && t < Pow(10, n)
    requires c <= x < unit
    ensures At(t, x, c) <= At(b, unit, c)
  {
    var p := Pow(10, x - c);
    MulMono(t, Pow(10, n), p);
    PowAdd(10, n, x - c);
    PowMono(10, n + x - c, n - 1 + unit - c);
    PowAdd(10, n - 1, unit - c);
    MulMono(Pow(10, n - 1), b, Pow(10, unit - c));
  }

  lemma {:induction false} SameNumberSameOrder(a: int, p: int, b: int, q: int, t: int, k: int)
    requires q <= p && b == a * Pow(10, p - q)
    ensures SameSign(Compare(a, p, t, k), Compare(b, q, t, k))
  {
    var c := Min(q, k);
    CompareAt(a, p, t, k, c);
    CompareAt(b, q, t, k, c);
    AtStep(a, p, q, c);
  }

  lemma {:induction false} CutZeros(head: string, tail: string, q: int, t: nat, k: int)
    requires AllDigits(tail, 10) && AllZero(tail)
    ensures SameSign(Compare(Value(head + tail, 10), q, t, k), Compare(Value(head, 10), q + |tail|, t, k))
  {
    ValueConcat(head, tail, 10);
    ValueZero(tail, 10);
    SameNumberSameOrder(Value(head, 10), q + |tail|, Value(head + tail, 10), q, t, k);
  }

  lemma {:induction false} CutSticky(head: string, tail: string, q: int, t: nat, k: int)
    requires AllDigits(head, 10) && head != [] && head[0] != '0'
    requires AllDigits(tail, 10) && !AllZero(tail)
    requires t < Pow(10, |head|)
    ensures SameSign(Compare(Value(head + tail, 10), q, t, k), Compare(Value(head + "1", 10), q + |tail| - 1, t, k))
  {
    ValueConcat(head, tail, 10);
    ValueZero(tail, 10);
    ValueBound(tail, 10);
    LeadingDigit(head, 10);
    ValueSnoc(head, '1', 10);
    StickyDigit(Value(head, 10), |tail|, Value(tail, 10), q, |head|, t, k);
  }

  lemma {:induction false} SimplifiedCompares(d: string, q: int, t: nat, k: int)
    requires AllDigits(d, 10) && (d != [] ==> d[0] != '0')
    requires t < Pow(10, MAX_SIGNIFICANT_DIGITS)
    ensures SameSign(Compare(Value(d, 10), q, t, k), Compare(Value(KeptDigits(d), 10), q + ExponentShift(d), t, k))
  {
    if |d| > MAX_SIGNIFICANT_DIGITS {
      var head, tail := d[..MAX_SIGNIFICANT_DIGITS], d[MAX_SIGNIFICANT_DIGITS..];
      assert d == head + tail;
      if AllZero(tail) { CutZeros(head, tail, q, t, k); } else { CutSticky(head, tail, q, t, k); }
    }
  }

  /** Simplification keeps the order with respect to every number of at most 772 significant digits. */
  lemma {:induction false} SimplificationKeepsOrder(d: string, a: int, b: int, q: int, e: int)
    requires AllDigits(d, 10) && (d != [] ==> d[0] != '0')
    requires a == Value(d, 10) && b == Value(KeptDigits(d), 10) && e == q + ExponentShift(d)
    ensures SameOrder(a, q, b, e)
  {
    forall t: nat, k: int | t < Pow(10, 772)
      ensures SameSign(Compare(a, q, t, k), Compare(b, e, t, k))
    {
      SimplifiedCompares(d, q, t, k);
    }
  }

  /** The double that a decimal literal of any length rounds to is the double that its simplified form
      rounds to. */
  lemma {:induction false} SimplificationKeepsRounding(all: string, a: int, b: int, q: int, e: int, x: Pattern)
    requires AllDigits(all, 10)
    requires a == Value(all, 10) && b == Value(KeptDigits(Significant(all)), 10)
    requires e == q + ExponentShift(Significant(all))
    ensures RoundsTo(a, q, x) <==> RoundsTo(b, e, x)
  {
    SignificantValue(all);
    SimplificationKeepsOrder(Significant(all), a, b, q, e);
    SameOrderSameRounding(a, q, b, e, x);
  }
}
