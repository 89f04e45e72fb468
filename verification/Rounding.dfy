/** Round to nearest, ties to even, to a 53-bit significand (section 4.3.1 of IEEE 754-2008). */
module Rounding {
  import opened Arithmetic

  const TWO_52: nat := 0x10_0000_0000_0000
  const TWO_53: nat := 0x20_0000_0000_0000

  /** m * 2^e, by repeated doubling. */
  function Scaled(m: nat, e: nat): nat {
    if e == 0 then m else 2 * Scaled(m, e - 1)
  }

  lemma {:induction false} ScaledIsProduct(m: nat, e: nat)
    ensures Scaled(m, e) == m * Pow(2, e)
  {
    if e > 0 {
      ScaledIsProduct(m, e - 1);
      MulAssoc(m, 2, Pow(2, e - 1));
    }
  }

  function Distance(n: int, m: nat, e: nat): nat {
    Abs(n - Scaled(m, e))
  }

  /** A significand of at most 53 bits that fills them unless the exponent is the least. */
  predicate Canonical(m: nat, e: nat) {
    m < TWO_53 && (e == 0 || TWO_52 <= m)
  }

  /** m * 2^e is as near to n as any number with a significand below 2^53, in canonical form; a
      second number that is equally near is only passed over for an even significand. */
  ghost predicate IsRounding(n: int, m: nat, e: nat) {
    && Canonical(m, e)
    && (forall m': nat, e': nat :: m' < TWO_53 ==> Distance(n, m, e) <= Distance(n, m', e'))
    && (forall m': nat, e': nat ::
          m' < TWO_53 && Scaled(m', e') != Scaled(m, e) && Distance(n, m', e') == Distance(n, m, e) ==> m % 2 == 0)
  }

  lemma {:induction false} ExactRounding(n: nat)
    requires n < TWO_53
    ensures IsRounding(n, n, 0)
  {
  }

  /** No number with a significand below 2^53 lies strictly between two neighbours of one binade. */
  lemma {:induction false} NothingBetween(hi: nat, e: nat, m': nat, e': nat)
    requires TWO_52 <= hi && m' < TWO_53
    ensures Scaled(m', e') <= Scaled(hi, e) || Scaled(hi + 1, e) <= Scaled(m', e')
  {
    var p := Pow(2, e);
    ScaledIsProduct(m', e');
    ScaledIsProduct(hi, e);
    ScaledIsProduct(hi + 1, e);
    if e' >= e {
      PowAdd(2, e' - e, e);
      var x := m' * Pow(2, e' - e);
      MulAssoc(m', Pow(2, e' - e), p);
      if x <= hi { MulMono(x, hi, p); } else { MulMono(hi + 1, x, p); }
    } else {
      PowMono(2, e', e - 1);
      MulMono(m', TWO_53, Pow(2, e'));
      MulMono(Pow(2, e'), Pow(2, e - 1), TWO_53);
      assert TWO_53 * Pow(2, e - 1) == TWO_52 * p;
      MulMono(TWO_52, hi, p);
    }
  }

  /** Whether the discarded part low of a significand hi rounds it up. */
  predicate RoundsUp(hi: nat, low: int, e: nat)
    requires e > 0
  {
    low > Pow(2, e - 1) || (low == Pow(2, e - 1) && hi % 2 == 1)
  }

  /** The significand and exponent after rounding, renormalised when the increment carries out of 53 bits. */
  function Rounded(hi: nat, low: int, e: nat): (nat, nat)
    requires e > 0
  {
    var m := if RoundsUp(hi, low, e) then hi + 1 else hi;
    if m == TWO_53 then (TWO_52, e + 1) else (m, e)
  }

  /** Of the two ends of a gap, the one that rounding picks is nearest to the point low above the lower end. */
  lemma {:induction false} NearestEnd(a: int, half: int, low: int, up: bool, x: int)
    requires 0 <= low < 2 * half
    requires low > half ==> up
    requires low < half ==> !up
    requires x <= a || a + 2 * half <= x
    ensures var kept := if up then a + 2 * half else a;
            && Abs(a + low - kept) <= Abs(a + low - x)
            && (x != kept && Abs(a + low - x) == Abs(a + low - kept) ==> low == half)
  {
  }

  lemma {:induction false} ScaledNext(hi: nat, e: nat)
    requires e > 0
    ensures Scaled(hi + 1, e) == Scaled(hi, e) + 2 * Pow(2, e - 1)
  {
    ScaledIsProduct(hi, e);
    ScaledIsProduct(hi + 1, e);
  }

  /** Renormalising keeps the value. */
  lemma {:induction false} ScaledCarry(e: nat)
    ensures Scaled(TWO_52, e + 1) == Scaled(TWO_53, e)
  {
    ScaledIsProduct(TWO_52, e + 1);
    ScaledIsProduct(TWO_53, e);
  }

  lemma {:induction false} ScaledRounded(hi: nat, low: int, e: nat)
    requires e > 0 && hi < TWO_53
    ensures var (m, x) := Rounded(hi, low, e);
            Scaled(m, x) == if RoundsUp(hi, low, e) then Scaled(hi, e) + 2 * Pow(2, e - 1) else Scaled(hi, e)
  {
    ScaledNext(hi, e);
    ScaledCarry(e);
  }

  /** What one competitor m' * 2^e' cannot do. */
  lemma {:induction false} RoundedBeats(hi: nat, low: int, e: nat, m': nat, e': nat)
    requires e > 0 && TWO_52 <= hi < TWO_53 && 0 <= low < 2 * Pow(2, e - 1)
    requires m' < TWO_53
    ensures var n, up := Scaled(hi, e) + low, RoundsUp(hi, low, e);
            var kept := if up then Scaled(hi, e) + 2 * Pow(2, e - 1) else Scaled(hi, e);
            && Abs(n - kept) <= Distance(n, m', e')
            && (Scaled(m', e') != kept && Distance(n, m', e') == Abs(n - kept) ==> low == Pow(2, e - 1))
  {
    ScaledNext(hi, e);
    NothingBetween(hi, e, m', e');
    NearestEnd(Scaled(hi, e), Pow(2, e - 1), low, RoundsUp(hi, low, e), Scaled(m', e'));
  }

  lemma {:induction false} RoundedIsRounding(hi: nat, low: int, e: nat)
    requires e > 0 && TWO_52 <= hi < TWO_53 && 0 <= low < Pow(2, e)
    ensures var (m, x) := Rounded(hi, low, e); IsRounding(Scaled(hi, e) + low, m, x)
  {
    var (m, x) := Rounded(hi, low, e);
    var n := Scaled(hi, e) + low;
    ScaledRounded(hi, low, e);
    assert low == Pow(2, e - 1) ==> m % 2 == 0;
    forall m': nat, e': nat | m' < TWO_53
      ensures Distance(n, m, x) <= Distance(n, m', e')
      ensures Scaled(m', e') == Scaled(m, x) || Distance(n, m', e') != Distance(n, m, x) || m % 2 == 0
    {
      RoundedBeats(hi, low, e, m', e');
    }
  }

  lemma {:induction false} HigherExponent(m: nat, e: nat, m': nat, e': nat)
    requires m < TWO_53 && TWO_52 <= m' && e < e'
    ensures Scaled(m, e) < Scaled(m', e')
  {
    ScaledIsProduct(m, e);
    ScaledIsProduct(m', e');
    PowMono(2, e + 1, e');
    MulStrict(m, TWO_53, Pow(2, e));
    MulMono(TWO_52, m', Pow(2, e'));
    MulMono(Pow(2, e + 1), Pow(2, e'), TWO_52);
    assert TWO_53 * Pow(2, e) == TWO_52 * Pow(2, e + 1);
  }

  lemma {:induction false} SameExponent(m: nat, m': nat, e: nat)
    requires m < m'
    ensures Scaled(m, e) < Scaled(m', e)
  {
    ScaledIsProduct(m, e);
    ScaledIsProduct(m', e);
    MulStrict(m, m', Pow(2, e));
  }

  lemma {:induction false} CanonicalUnique(m: nat, e: nat, m': nat, e': nat)
    requires Canonical(m, e) && Canonical(m', e') && Scaled(m, e) == Scaled(m', e')
    ensures m == m' && e == e'
  {
    if e < e' { HigherExponent(m, e, m', e'); }
    if e' < e { HigherExponent(m', e', m, e); }
    if m < m' { SameExponent(m, m', e); }
    if m' < m { SameExponent(m', m, e); }
  }

  /** Above a canonical number comes the one with the next significand. */
  lemma {:induction false} CanonicalStep(m: nat, e: nat, m': nat, e': nat)
    requires Canonical(m, e) && Canonical(m', e') && Scaled(m, e) < Scaled(m', e')
    ensures Scaled(m, e) < Scaled(m + 1, e) <= Scaled(m', e')
  {
    SameExponent(m, m + 1, e);
    if TWO_52 <= m {
      NothingBetween(m, e, m', e');
    }
  }

  lemma {:induction false} NotBelow(n: int, m: nat, e: nat, m': nat, e': nat)
    requires IsRounding(n, m, e) && IsRounding(n, m', e')
    ensures Scaled(m', e') <= Scaled(m, e)
  {
    if Scaled(m, e) < Scaled(m', e') {
      CanonicalStep(m, e, m', e');
      assert Distance(n, m, e) == Distance(n, m', e') && m % 2 == 0 && m' % 2 == 0;
      assert Distance(n, m', e') <= Distance(n, m + 1, e);
      CanonicalUnique(m + 1, e, m', e');
    }
  }

  /** At most one canonical pair is the rounding of n. */
  lemma {:induction false} RoundingUnique(n: int, m: nat, e: nat, m': nat, e': nat)
    requires IsRounding(n, m, e) && IsRounding(n, m', e')
    ensures m == m' && e == e'
  {
    NotBelow(n, m, e, m', e');
    NotBelow(n, m', e', m, e);
    CanonicalUnique(m, e, m', e');
  }

  /** Half-way cases go to the even significand: 2^53 + 1 down and 2^53 + 3 up. */
  lemma {:induction false} TiesGoToEven()
    ensures IsRounding(TWO_53 + 1, TWO_52, 1)
    ensures IsRounding(TWO_53 + 3, TWO_52 + 2, 1)
  {
    assert Scaled(TWO_52, 1) == TWO_53 && Scaled(TWO_52 + 1, 1) == TWO_53 + 2;
    RoundedIsRounding(TWO_52, 1, 1);
    RoundedIsRounding(TWO_52 + 1, 1, 1);
  }
}
