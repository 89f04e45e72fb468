/** Parsing of integers in any radix: InternalStringToInt, the engine of parseInt. */
module ParseInt {
  import opened Arithmetic
  import opened Digits
  import opened Rounding
  import opened PowerOfTwoRadix

  /** What the parser hands on: the quiet NaN, a scaled integer, a digit string for Strtod with exponent
      zero, or the double accumulated chunk by chunk. */
  datatype Outcome =
    | NotANumber
    | Power(negative: bool, number: nat, exponent: nat)
    | Decimal(negative: bool, digits: string)
    | Accumulated(negative: bool, v: int)

  /** The steps of section 15.1.2.2 of ECMA-262 (5.1) up to the digits to be interpreted. */
  datatype Interpretation = NoNumber | Integer(negative: bool, radix: nat, digits: string)

  function Interpret(space: char -> bool, s: string, radix: int): Interpretation {
    var i := SkipSpace(space, s, 0);
    if i < |s| && s[i] == '-' then InterpretUnsigned(s, i + 1, radix, true)
    else if i < |s| && s[i] == '+' then InterpretUnsigned(s, i + 1, radix, false)
    else InterpretUnsigned(s, i, radix, false)
  }

  /** Whether a prefix 0x is to be stripped at position j. */
  predicate Prefixed(s: string, j: nat, radix: int) {
    (radix == 0 || radix == 16) && j + 1 < |s| && s[j] == '0' && (s[j + 1] == 'x' || s[j + 1] == 'X')
  }

  function InterpretUnsigned(s: string, j: nat, radix: int, negative: bool): Interpretation
    requires j <= |s|
  {
    if Prefixed(s, j, radix) then InterpretDigits(s, j + 2, 16, negative)
    else InterpretDigits(s, j, if radix == 0 then 10 else radix, negative)
  }

  function InterpretDigits(s: string, k: nat, r: int, negative: bool): Interpretation
    requires k <= |s|
  {
    if r < 2 || r > 36 || RunEnd(s, k, r) == k then NoNumber
    else Integer(negative, r, s[k..RunEnd(s, k, r)])
  }

  /** White space behind the sign is not skipped: what follows it is no number. */
  lemma {:induction false} SpaceAfterSign(space: char -> bool, s: string, radix: int)
    requires var i := SkipSpace(space, s, 0); i + 1 < |s| && (s[i] == '+' || s[i] == '-') && s[i + 1] == ' '
    ensures Interpret(space, s, radix) == NoNumber
  {
    var i := SkipSpace(space, s, 0);
    assert !IsDigit(s[i + 1], 16) && !IsDigit(s[i + 1], if radix == 0 then 10 else radix);
  }

  lemma {:induction false} PlusSpaceFive(space: char -> bool)
    requires !space('+')
    ensures Interpret(space, "+ 5", 10) == NoNumber
    ensures Interpret(space, "+5", 10) == Integer(false, 10, "5")
  {
    SpaceAfterSign(space, "+ 5", 10);
    RunEndUnique("+5", 1, 2, 10);
    assert "+5"[1..2] == "5";
  }

  /** The rounding rnd of the machine leaves every integer from 0 to n alone. */
  ghost predicate FixesUpTo(rnd: int -> int, n: int) {
    forall x :: 0 <= x <= n ==> rnd(x) == x
  }

  /** The outcome stands for the integer n: correctly rounded in a power-of-two radix; in radix 10 the
      digits are exact unless n is beyond every double, and then so are they; otherwise exact under
      every rounding that leaves the integers up to n alone. */
  ghost predicate Denotes(r: Outcome, radix: nat, rnd: int -> int, n: int) {
    match r
    case NotANumber => false
    case Power(_, m, e) => IsRounding(n, m, e) && (radix in {2, 4, 8, 16, 32} || n == m == 0)
    case Decimal(_, digits) =>
      && radix == 10
      && AllDigits(digits, 10)
      && (Value(digits, 10) == n || (Value(digits, 10) >= Pow(10, 309) && n >= Pow(10, 309)))
    case Accumulated(_, v) =>
      && radix !in {2, 4, 8, 10, 16, 32}
      && (FixesUpTo(rnd, n) ==> v == n)
  }

  /** What the parser owes its caller. */
  ghost predicate Renders(r: Outcome, i: Interpretation, rnd: int -> int) {
    match i
    case NoNumber => r == NotANumber
    case Integer(negative, radix, digits) =>
      && r != NotANumber && r.negative == negative
      && Denotes(r, radix, rnd, Value(digits, radix))
  }

  const MAX_MULTIPLIER: nat := 0xffff_ffff / 36

  lemma {:induction false} ProductFits(multiplier: int, radix: nat)
    requires multiplier <= MAX_MULTIPLIER && radix <= 36
    ensures multiplier * radix <= 0xffff_ffff
  {
    MulMono(multiplier, MAX_MULTIPLIER, radix);
    MulMono(radix, 36, MAX_MULTIPLIER);
  }

  /** One chunk: as many digits as keep the multiplier within 32 bits. */
  method ParsePart(s: string, start: nat, radix: nat) returns (part: int, multiplier: int, current: nat, done: bool)
    requires start < |s| && 2 <= radix <= 36
    ensures start <= current <= |s|
    ensures forall i :: start <= i < current ==> IsDigit(s[i], radix)
    ensures part == Value(s[start..current], radix)
    ensures multiplier == Pow(radix, current - start)
    ensures 0 <= part < multiplier <= MAX_MULTIPLIER
    ensures done ==> current == RunEnd(s, current, radix)
    ensures !done ==> start < current < |s|
  {
    part, multiplier, current, done := 0, 1, start, false;
    while true
      invariant start <= current < |s|
      invariant forall i :: start <= i < current ==> IsDigit(s[i], radix)
      invariant part == Value(s[start..current], radix)
      invariant multiplier == Pow(radix, current - start)
      invariant 0 <= part < multiplier <= MAX_MULTIPLIER
      invariant current == start ==> multiplier == 1
      invariant !done
      decreases |s| - current
    {
      var d := ScanDigit(s[current], radix);
      if d < 0 {
        done := true;
        break;
      }
      var m := multiplier * radix;
      ProductFits(multiplier, radix);
      assert m <= 0xffff_ffff;  // the product fits in a uint32
      if m > MAX_MULTIPLIER {
        break;
      }
      HornerBound(part, multiplier, d, radix);
      ValueOfNext(s, start, current, radix);
      part := part * radix + d;
      multiplier := m;
      current := current + 1;
      if current == |s| {
        done := true;
        break;
      }
    }
  }

  lemma {:induction false} ChunkCombines(s: string, start: nat, middle: nat, end: nat, radix: nat)
    requires start <= middle <= end <= |s|
    ensures Value(s[start..end], radix) ==
            Value(s[start..middle], radix) * Pow(radix, end - middle) + Value(s[middle..end], radix)
  {
    SliceSplit(s, start, middle, end);
    ValueConcat(s[start..middle], s[middle..end], radix);
  }

  /** The running value never exceeds the final one, so a rounding that fixes the final one fixes both
      steps of the update. */
  lemma {:induction false} UpdateIsExact(rnd: int -> int, v: int, before: nat, multiplier: int, part: int)
    requires 0 < multiplier && 0 <= part
    requires FixesUpTo(rnd, before) ==> v == before
    requires FixesUpTo(rnd, before * multiplier + part)
    ensures rnd(rnd(v * multiplier) + part) == before * multiplier + part
  {
    MulMono(1, multiplier, before);
    assert before <= before * multiplier + part;
  }

  method ParseChunks(s: string, start: nat, radix: nat, rnd: int -> int) returns (v: int)
    requires start < |s| && 2 <= radix <= 36
    ensures FixesUpTo(rnd, Value(s[start..RunEnd(s, start, radix)], radix)) ==>
              v == Value(s[start..RunEnd(s, start, radix)], radix)
  {
    var current, done := start, false;
    v := 0;
    while !done
      invariant start <= current <= |s|
      invariant forall i :: start <= i < current ==> IsDigit(s[i], radix)
      invariant FixesUpTo(rnd, Value(s[start..current], radix)) ==> v == Value(s[start..current], radix)
      invariant if done then current == RunEnd(s, current, radix) else current < |s|
      decreases !done, |s| - current
    {
      var part, multiplier, next;
      part, multiplier, next, done := ParsePart(s, current, radix);
      ChunkCombines(s, start, current, next, radix);
      ghost var before := Value(s[start..current], radix);
      if FixesUpTo(rnd, before * multiplier + part) {
        UpdateIsExact(rnd, v, before, multiplier, part);
      }
      v := rnd(rnd(v * multiplier) + part);
      current := next;
    }
    RunEndUnique(s, start, current, radix);
  }

  const MAX_SIGNIFICANT_DIGITS: nat := 309

  lemma {:induction false} PrefixOfSlice(s: string, i: nat, j: nat, n: nat)
    requires i + n <= j <= |s|
    ensures s[i..j][..n] == s[i..i + n]
  {
  }

  /** Copies at most 310 digits to a buffer of 311 characters. */
  method CollectDecimal(s: string, start: nat) returns (digits: string)
    requires start < |s|
    ensures var all := s[start..RunEnd(s, start, 10)];
            digits == if |all| <= 310 then all else all[..310]
  {
    var buffer := new char[MAX_SIGNIFICANT_DIGITS + 2];
    var pos, current := 0, start;
    while current != |s| && '0' <= s[current] <= '9'
      invariant start <= current <= |s|
      invariant pos == Min(current - start, 310)
      invariant forall i :: start <= i < current ==> IsDigit(s[i], 10)
      invariant forall i :: 0 <= i < pos ==> buffer[i] == s[start + i]
      decreases |s| - current
    {
      if pos <= MAX_SIGNIFICANT_DIGITS {
        buffer[pos] := s[current];
        pos := pos + 1;
      }
      current := current + 1;
    }
    buffer[pos] := '\0';
    RunEndUnique(s, start, current, 10);
    digits := buffer[..pos];
    PrefixOfSlice(s, start, current, pos);
    assert digits == s[start..start + pos];
  }

  /** Digits beyond the first 310 are dropped only from numbers that are beyond every double anyway. */
  lemma {:induction false} DroppingDigits(all: string, rnd: int -> int, negative: bool)
    requires AllDigits(all, 10)
    requires |all| > 310 ==> all[0] != '0'
    ensures Denotes(Decimal(negative, if |all| <= 310 then all else all[..310]), 10, rnd, Value(all, 10))
  {
    if |all| > 310 {
      LeadingDigit(all, 10);
      LeadingDigit(all[..310], 10);
      PowMono(10, 309, |all| - 1);
    }
  }

  lemma {:induction false} Pow93()
    ensures Pow(2, 93) < Pow(10, 28)
  {
    PowersOfTwo();
    PowAdd(2, 64, 29);
    PowAdd(2, 11, 18);
    PowAdd(2, 11, 7);
    PowAdd(10, 14, 14);
    PowAdd(10, 7, 7);
  }

  lemma {:induction false} PowersCompare(k: nat, m: nat, n: nat)
    requires Pow(2, k) <= Pow(10, m)
    ensures Pow(2, k * n + 1) < Pow(10, m * n + 1)
  {
    PowOfPower(2, k, n);
    PowOfPower(10, m, n);
    PowBaseMono(Pow(2, k), Pow(10, m), n);
  }

  /** 10^309 is beyond the largest double, which is below 2^1024. */
  lemma {:induction false} BeyondEveryDouble()
    ensures Pow(2, 1024) < Pow(10, 309)
  {
    Pow93();
    PowersCompare(93, 28, 11);
  }

  /** The dispatch on the radix, once the sign, the prefix and the leading zeros are gone. */
  method ParseDigits(space: char -> bool, s: string, current: nat, radix: nat, negative: bool, rnd: int -> int)
      returns (r: Outcome)
    requires current < |s| && 2 <= radix <= 36
    requires s[current] != '0'
    ensures r != NotANumber && r.negative == negative
    ensures Denotes(r, radix, rnd, Value(s[current..RunEnd(s, current, radix)], radix))
  {
    if radix == 2 || radix == 4 || radix == 8 || radix == 16 || radix == 32 {
      var k := if radix == 2 then 1 else if radix == 4 then 2 else if radix == 8 then 3 else if radix == 16 then 4 else 5;
      assert Pow(2, k) == radix;
      var b := StringToIntDouble(k, space, s, current, negative, true);
      r := Power(b.negative, b.number, b.exponent);
    } else if radix == 10 {
      var digits := CollectDecimal(s, current);
      DroppingDigits(s[current..RunEnd(s, current, 10)], rnd, negative);
      r := Decimal(negative, digits);
    } else {
      var v := ParseChunks(s, current, radix, rnd);
      r := Accumulated(negative, v);
    }
  }

  lemma {:induction false} ZeroDenoted(negative: bool, radix: nat, rnd: int -> int, digits: string)
    requires 2 <= radix <= 36 && AllZero(digits)
    ensures Denotes(Power(negative, 0, 0), radix, rnd, Value(digits, radix))
  {
    ValueZero(digits, radix);
    ExactRounding(0);
  }

  /** The leading zeros and the digits from position start on. */
  method ParseMagnitude(space: char -> bool, s: string, start: nat, radix: int, negative: bool, rnd: int -> int)
      returns (r: Outcome)
    requires start < |s|
    ensures Renders(r, InterpretDigits(s, start, radix, negative), rnd)
  {
    if radix < 2 || radix > 36 {
      return NotANumber;
    }
    var current := start;
    while s[current] == '0'
      invariant start <= current < |s|
      invariant AllZero(s[start..current])
      decreases |s| - current
    {
      AllZeroSnoc(s, start, current);
      current := current + 1;
      if current == |s| {
        SkipZeros(s, start, current, radix);
        ZeroDenoted(negative, radix, rnd, s[start..current]);
        return Power(negative, 0, 0);
      }
    }
    SkipZeros(s, start, current, radix);
    if current == start && !IsDigit(s[current], radix) {
      return NotANumber;
    }
    r := ParseDigits(space, s, current, radix, negative, rnd);
  }

  /** The detection of the radix and the prefix. */
  method ParseUnsigned(space: char -> bool, s: string, start: nat, radix: int, negative: bool, rnd: int -> int)
      returns (r: Outcome)
    requires start < |s|
    ensures Renders(r, InterpretUnsigned(s, start, radix, negative), rnd)
  {
    var current, actual := start, radix;
    if radix == 0 {
      actual := 10;
    }
    if radix == 0 || radix == 16 {
      if s[current] == '0' && current + 1 != |s| && (s[current + 1] == 'x' || s[current + 1] == 'X') {
        actual := 16;
        current := current + 2;
        if current == |s| {
          return NotANumber;
        }
      }
    }
    r := ParseMagnitude(space, s, current, actual, negative, rnd);
  }

  method StringToInt(space: char -> bool, s: string, radix: int, rnd: int -> int) returns (r: Outcome)
    ensures Renders(r, Interpret(space, s, radix), rnd)
  {
    var found, current := AdvanceToNonspace(space, s, 0);
    if !found {
      return NotANumber;
    }
    var negative := false;
    if s[current] == '+' {
      current := current + 1;
      if current == |s| {
        return NotANumber;
      }
    } else if s[current] == '-' {
      current := current + 1;
      if current == |s| {
        return NotANumber;
      }
      negative := true;
    }
    r := ParseUnsigned(space, s, current, radix, negative, rnd);
  }
}
