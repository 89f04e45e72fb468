/** Parsing of digit strings in radix 2, 4, 8, 16 or 32: the template InternalStringToIntDouble. */
module PowerOfTwoRadix {
  import opened Arithmetic
  import opened Digits
  import opened Rounding

  /** Junk stands for the quiet NaN; otherwise the result is the signed number * 2^exponent, so that
      Binary(true, 0, 0) is minus zero. */
  datatype Result = Junk | Binary(negative: bool, number: nat, exponent: nat)

  /** The digit string s[start..] up to its first non-digit. */
  function Literal(s: string, start: nat, radix: nat): string
    requires start <= |s|
  {
    s[start..RunEnd(s, start, radix)]
  }

  /** What the parser owes its caller. */
  ghost predicate Correct(r: Result, space: char -> bool, s: string, start: nat, radix: nat,
                          negative: bool, allowTrailingJunk: bool)
    requires start <= |s|
  {
    var accepted := allowTrailingJunk || OnlySpace(space, s, RunEnd(s, start, radix));
    match r
    case Junk => !accepted
    case Binary(sign, m, e) => accepted && sign == negative && IsRounding(Value(Literal(s, start, radix), radix), m, e)
  }

  /** How the dropped bits of the last digits and the digits after them decide the direction. */
  predicate TailRoundsUp(hi: nat, dropped: nat, middle: nat, zeroTail: bool) {
    dropped > middle || (dropped == middle && (hi % 2 != 0 || !zeroTail))
  }

  lemma {:induction false} CompareWithMiddle(dropped: int, mid: int, p: int, r: int)
    requires 0 <= r < p
    ensures dropped * p + r > mid * p <==> dropped > mid || (dropped == mid && r > 0)
    ensures dropped * p + r == mid * p <==> dropped == mid && r == 0
    ensures dropped < mid ==> dropped * p + r < mid * p
  {
    if dropped < mid { MulMono(dropped + 1, mid, p); }
    if dropped > mid { MulMono(mid + 1, dropped, p); }
  }

  lemma {:induction false} LowPart(dropped: nat, b: nat, t: nat, r: nat)
    requires b > 0 && dropped < Pow(2, b) && r < Pow(2, t)
    ensures 0 <= dropped * Pow(2, t) + r < Pow(2, b + t)
    ensures dropped * Pow(2, t) + r > Pow(2, b + t - 1) <==>
            dropped > Pow(2, b - 1) || (dropped == Pow(2, b - 1) && r > 0)
    ensures dropped * Pow(2, t) + r == Pow(2, b + t - 1) <==> dropped == Pow(2, b - 1) && r == 0
  {
    PowAdd(2, b, t);
    PowAdd(2, b - 1, t);
    MulMono(0, dropped, Pow(2, t));
    CompareWithMiddle(dropped, Pow(2, b), Pow(2, t), r);
    CompareWithMiddle(dropped, Pow(2, b - 1), Pow(2, t), r);
  }

  /** The significand and exponent after that rounding. */
  function TailRounded(hi: nat, dropped: nat, middle: nat, zeroTail: bool, e: nat): (nat, nat) {
    var m := if TailRoundsUp(hi, dropped, middle, zeroTail) then hi + 1 else hi;
    if m == TWO_53 then (TWO_52, e + 1) else (m, e)
  }

  lemma {:induction false} QuotientBounds(number: nat, p: nat, low: nat, high: nat)
    requires 0 < p && low * p <= number < high * p
    ensures low <= number / p < high
  {
    var q := number / p;
    assert q * p <= number < (q + 1) * p;
    if q < low { MulMono(q + 1, low, p); }
    if q >= high { MulMono(high, q, p); }
  }

  lemma {:induction false} LeadingBits(number: nat, b: nat)
    requires Pow(2, b + 52) <= number < Pow(2, b + 53)
    ensures TWO_52 <= number / Pow(2, b) < TWO_53
    ensures number == number / Pow(2, b) * Pow(2, b) + number % Pow(2, b)
  {
    PowersOfTwo();
    PowAdd(2, 52, b);
    PowAdd(2, 53, b);
    QuotientBounds(number, Pow(2, b), TWO_52, TWO_53);
  }

  lemma {:induction false} Recombine(number: int, hi: int, p: int, dropped: int, q: int, r: int)
    requires number == hi * p + dropped
    ensures number * q + r == hi * (p * q) + (dropped * q + r)
  {
    assert (hi * p) * q == hi * (p * q);
  }

  lemma {:induction false} TailValue(k: nat, tail: string, radix: nat, t: nat)
    requires t == k * |tail| && radix == Pow(2, k)
    requires 2 <= radix <= 36 && AllDigits(tail, radix)
    ensures Pow(radix, |tail|) == Pow(2, t)
    ensures Value(tail, radix) < Pow(2, t)
    ensures Value(tail, radix) == 0 <==> AllZero(tail)
  {
    PowOfPower(2, k, |tail|);
    ValueBound(tail, radix);
    ValueZero(tail, radix);
  }

  lemma {:induction false} Assembled(hi: nat, dropped: nat, b: nat, t: nat, r: nat)
    ensures (hi * Pow(2, b) + dropped) * Pow(2, t) + r == Scaled(hi, b + t) + (dropped * Pow(2, t) + r)
  {
    PowAdd(2, b, t);
    Recombine(hi * Pow(2, b) + dropped, hi, Pow(2, b), dropped, Pow(2, t), r);
    ScaledIsProduct(hi, b + t);
  }

  lemma {:induction false} SameDecision(hi: nat, dropped: nat, b: nat, t: nat, r: nat)
    requires b > 0 && dropped < Pow(2, b) && r < Pow(2, t)
    ensures TailRounded(hi, dropped, Pow(2, b - 1), r == 0, b + t) == Rounded(hi, dropped * Pow(2, t) + r, b + t)
    ensures 0 <= dropped * Pow(2, t) + r < Pow(2, b + t)
  {
    LowPart(dropped, b, t, r);
  }

  lemma {:induction false} RemainderDecides(hi: nat, dropped: nat, b: nat, t: nat, r: nat)
    requires b > 0 && TWO_52 <= hi < TWO_53 && dropped < Pow(2, b) && r < Pow(2, t)
    ensures var (m, e) := TailRounded(hi, dropped, Pow(2, b - 1), r == 0, b + t);
            IsRounding((hi * Pow(2, b) + dropped) * Pow(2, t) + r, m, e)
  {
    SameDecision(hi, dropped, b, t, r);
    Assembled(hi, dropped, b, t, r);
    RoundedIsRounding(hi, dropped * Pow(2, t) + r, b + t);
  }

  /** The leading 53 bits, the dropped bits and whether the tail is all zeros decide the rounding of the whole. */
  lemma {:induction false} TailDecides(k: nat, hi: nat, dropped: nat, b: nat, tail: string, t: nat)
    requires b > 0 && t == k * |tail|
    requires TWO_52 <= hi < TWO_53 && dropped < Pow(2, b)
    requires 2 <= Pow(2, k) <= 36 && AllDigits(tail, Pow(2, k))
    ensures var (m, e) := TailRounded(hi, dropped, Pow(2, b - 1), AllZero(tail), b + t);
            IsRounding((hi * Pow(2, b) + dropped) * Pow(Pow(2, k), |tail|) + Value(tail, Pow(2, k)), m, e)
  {
    TailValue(k, tail, Pow(2, k), t);
    RemainderDecides(hi, dropped, b, t, Value(tail, Pow(2, k)));
  }

  lemma {:induction false} SmallPower(k: nat)
    requires 1 <= k <= 5
    ensures 2 <= Pow(2, k) <= 32
  {
    assert k == 1 || k == 2 || k == 3 || k == 4 || k == 5;
  }

  lemma {:induction false} HalveOverflow(p: nat, overflow: nat, initial: nat)
    requires p * overflow <= initial < p * (overflow + 1)
    ensures (2 * p) * (overflow / 2) <= initial < (2 * p) * (overflow / 2 + 1)
  {
    var h := overflow / 2;
    assert (2 * p) * h == p * (2 * h);
    assert (2 * p) * (h + 1) == p * (2 * h + 2);
    MulMono(2 * h, overflow, p);
    MulMono(overflow + 1, 2 * h + 2, p);
  }

  lemma {:induction false} BitsOfOverflow(number: nat, bits: nat, k: nat)
    requires 1 <= bits && number < TWO_53 * Pow(2, k)
    requires Pow(2, bits - 1) <= number / TWO_53 < 2 * Pow(2, bits - 1)
    ensures bits <= k
    ensures Pow(2, bits + 52) <= number < Pow(2, bits + 53)
  {
    PowersOfTwo();
    PowAdd(2, bits - 1, 53);
    PowAdd(2, bits, 53);
    if k < bits {
      PowMono(2, k, bits - 1);
    }
  }

  /** The number of bits of a number of more than 53 bits that do not fit. */
  method CountOverflowBits(number: nat, ghost k: nat) returns (bits: nat)
    requires 1 <= k <= 5
    requires TWO_53 <= number < TWO_53 * Pow(2, k)
    ensures 1 <= bits <= k
    ensures Pow(2, bits + 52) <= number < Pow(2, bits + 53)
  {
    var overflow := number / TWO_53;
    ghost var initial := overflow;
    bits := 1;
    while overflow > 1
      invariant 1 <= overflow
      invariant 1 <= bits
      invariant Pow(2, bits - 1) * overflow <= initial < Pow(2, bits - 1) * (overflow + 1)
      decreases overflow
    {
      HalveOverflow(Pow(2, bits - 1), overflow, initial);
      bits := bits + 1;
      overflow := overflow / 2;
    }
    BitsOfOverflow(number, bits, k);
  }

  /** The 32-bit cast keeps the bits under the mask, of which there are at most five. */
  lemma {:induction false} MaskAfterCast(number: nat, b: nat)
    requires 1 <= b <= 5
    ensures number % 0x1_0000_0000 % Pow(2, b) == number % Pow(2, b)
  {
    PowersOfTwo();
    PowAdd(2, 32 - b, b);
    ModOfMod(number, Pow(2, 32 - b), Pow(2, b));
  }

  lemma {:induction false} CarryBit(m: nat)
    requires m <= TWO_53
    ensures m / TWO_53 % 2 != 0 <==> m == TWO_53
  {
  }

  /** Skips the digits after the last one that was accumulated, noting whether all of them are zero. */
  method SkipTail(k: nat, s: string, last: nat) returns (end: nat, zeroTail: bool, shift: nat)
    requires last < |s|
    ensures end == RunEnd(s, last + 1, Pow(2, k))
    ensures zeroTail <==> AllZero(s[last + 1..end])
    ensures shift == k * |s[last + 1..end]|
  {
    var radix := Pow(2, k);
    zeroTail, shift, end := true, 0, last + 1;
    while end < |s| && IsDigit(s[end], radix)
      invariant last + 1 <= end <= |s|
      invariant forall i :: last + 1 <= i < end ==> IsDigit(s[i], radix)
      invariant zeroTail <==> AllZero(s[last + 1..end])
      invariant shift == k * (end - last - 1)
    {
      zeroTail := zeroTail && s[end] == '0';
      shift := shift + k;
      AllZeroSnoc(s, last + 1, end);
      MulStep(k, end - last - 1);
      end := end + 1;
    }
    RunEndUnique(s, last + 1, end, radix);
  }

  lemma {:induction false} SplitLiteral(s: string, start: nat, last: nat, end: nat, radix: nat)
    requires start <= last < |s| && 2 <= radix <= 36
    requires forall i :: start <= i <= last ==> IsDigit(s[i], radix)
    requires end == RunEnd(s, last + 1, radix)
    ensures RunEnd(s, start, radix) == end
    ensures AllDigits(s[last + 1..end], radix)
    ensures Value(s[start..end], radix) ==
            Value(s[start..last + 1], radix) * Pow(radix, end - last - 1) + Value(s[last + 1..end], radix)
  {
    RunEndUnique(s, start, end, radix);
    SliceSplit(s, start, last + 1, end);
    ValueConcat(s[start..last + 1], s[last + 1..end], radix);
  }

  lemma {:induction false} OverflowRounds(k: nat, s: string, start: nat, last: nat, end: nat, hi: nat, dropped: nat, b: nat, t: nat)
    requires start <= last < |s| && 2 <= Pow(2, k) <= 36
    requires forall i :: start <= i <= last ==> IsDigit(s[i], Pow(2, k))
    requires end == RunEnd(s, last + 1, Pow(2, k))
    requires b > 0 && t == k * (end - last - 1)
    requires TWO_52 <= hi < TWO_53 && dropped < Pow(2, b)
    requires hi * Pow(2, b) + dropped == Value(s[start..last + 1], Pow(2, k))
    ensures RunEnd(s, start, Pow(2, k)) == end
    ensures var (m, e) := TailRounded(hi, dropped, Pow(2, b - 1), AllZero(s[last + 1..end]), b + t);
            IsRounding(Value(Literal(s, start, Pow(2, k)), Pow(2, k)), m, e)
  {
    SplitLiteral(s, start, last, end, Pow(2, k));
    TailDecides(k, hi, dropped, b, s[last + 1..end], t);
  }

  /** Half-way cases round up if the significand is odd or a digit after the dropped bits is not zero. */
  method RoundSignificand(hi: nat, dropped: nat, middle: nat, zeroTail: bool, e: nat)
      returns (number: nat, exponent: nat)
    requires hi < TWO_53
    ensures (number, exponent) == TailRounded(hi, dropped, middle, zeroTail, e)
  {
    number, exponent := hi, e;
    if dropped > middle {
      number := number + 1;
    } else if dropped == middle {
      if number % 2 != 0 || !zeroTail {
        number := number + 1;
      }
    }
    // Rounding up may carry into bit 53.
    CarryBit(number);
    if number / TWO_53 % 2 != 0 {
      exponent := exponent + 1;
      number := number / 2;
    }
  }

  /** The part of the loop body entered once the accumulated number no longer fits in 53 bits. */
  method RoundOverflow(k: nat, space: char -> bool, s: string, start: nat, last: nat, acc: nat,
                       negative: bool, allowTrailingJunk: bool) returns (r: Result)
    requires 1 <= k <= 5
    requires start <= last < |s|
    requires forall i :: start <= i <= last ==> IsDigit(s[i], Pow(2, k))
    requires acc == Value(s[start..last + 1], Pow(2, k))
    requires TWO_53 <= acc < TWO_53 * Pow(2, k)
    ensures Correct(r, space, s, start, Pow(2, k), negative, allowTrailingJunk)
  {
    SmallPower(k);
    var bits := CountOverflowBits(acc, k);
    MaskAfterCast(acc, bits);
    var dropped := acc % 0x1_0000_0000 % Pow(2, bits);
    var number := acc / Pow(2, bits);
    var current, zeroTail, shift := SkipTail(k, s, last);
    var exponent := bits + shift;

    LeadingBits(acc, bits);
    OverflowRounds(k, s, start, last, current, number, dropped, bits, shift);

    if !allowTrailingJunk {
      var found, _ := AdvanceToNonspace(space, s, current);
      if found {
        return Junk;
      }
    }

    assert OnlySpace(space, s, current) || allowTrailingJunk;
    number, exponent := RoundSignificand(number, dropped, Pow(2, bits - 1), zeroTail, exponent);
    r := Binary(negative, number, exponent);
  }

  method SkipLeadingZeros(s: string, start: nat) returns (current: nat)
    requires start <= |s|
    ensures start <= current <= |s|
    ensures AllZero(s[start..current])
    ensures forall i :: start <= i < current ==> s[i] == '0'
    ensures current < |s| ==> s[current] != '0'
  {
    current := start;
    while current != |s| && s[current] == '0'
      invariant start <= current <= |s|
      invariant AllZero(s[start..current])
      invariant forall i :: start <= i < current ==> s[i] == '0'
      decreases |s| - current
    {
      AllZeroSnoc(s, start, current);
      current := current + 1;
    }
  }

  method StringToIntDouble(k: nat, space: char -> bool, s: string, start: nat,
                           negative: bool, allowTrailingJunk: bool) returns (r: Result)
    requires 1 <= k <= 5
    requires start < |s|
    ensures Correct(r, space, s, start, Pow(2, k), negative, allowTrailingJunk)
  {
    var radix := Pow(2, k);
    SmallPower(k);
    var current := SkipLeadingZeros(s, start);
    ValueZero(s[start..current], radix);
    if current == |s| {
      RunEndUnique(s, start, current, radix);
      ExactRounding(0);
      return Binary(negative, 0, 0);
    }

    var number := 0;
    while current < |s|
      invariant start <= current <= |s|
      invariant forall i :: start <= i < current ==> IsDigit(s[i], radix)
      invariant number == Value(s[start..current], radix) < TWO_53
    {
      var digit := ScanDigit(s[current], radix);
      if digit < 0 {
        RunEndUnique(s, start, current, radix);
        if !allowTrailingJunk {
          var found, _ := AdvanceToNonspace(space, s, current);
          if found {
            return Junk;
          }
        }
        break;
      }
      ValueOfNext(s, start, current, radix);
      HornerBound(number, TWO_53, digit, radix);
      number := number * radix + digit;
      assert number < 0x8000_0000_0000_0000;  // it fits in an int64
      if number / TWO_53 != 0 {
        r := RoundOverflow(k, space, s, start, current, number, negative, allowTrailingJunk);
        return;
      }
      current := current + 1;
    }
    RunEndUnique(s, start, current, radix);
    ExactRounding(number);
    r := Binary(negative, number, 0);
  }
}
