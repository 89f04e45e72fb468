/** Conversion of a string to a number: InternalStringToDouble. */
module StringToDouble {
  import opened Arithmetic
  import opened Digits
  import opened Rounding
  import opened DecimalSimplification
  import PowerOfTwoRadix

  /** The conversion flags. */
  datatype Flags = Flags(hex: bool, octal: bool, implicitOctal: bool, binary: bool, trailingJunk: bool)

  /** What the conversion hands on: the value for an empty string, the quiet NaN, an infinity, a scaled
      integer, or digits and an exponent for Strtod; no digits stand for a zero. */
  datatype Outcome =
    | Empty
    | NotANumber
    | Infinite(negative: bool)
    | Power(negative: bool, number: nat, exponent: nat)
    | Decimal(negative: bool, digits: string, tens: int)

  // ----- the grammar -----

  /** [.digits], starting at position i. */
  function FractionStart(s: string, i: nat): (j: nat)
    requires i <= |s|
    ensures i <= j <= |s|
  {
    if i < |s| && s[i] == '.' then i + 1 else i
  }

  function FractionEnd(s: string, i: nat): (j: nat)
    requires i <= |s|
    ensures FractionStart(s, i) <= j <= |s|
  {
    if i < |s| && s[i] == '.' then RunEnd(s, i + 1, 10) else i
  }

  datatype ExponentPart = ExponentPart(negative: bool, magnitude: nat, end: nat)

  /** [e[sign]digits], starting at position i; not there unless it has a digit. */
  function ScanExponent(s: string, i: nat): (x: ExponentPart)
    requires i <= |s|
    ensures i <= x.end <= |s|
  {
    if i < |s| && (s[i] == 'e' || s[i] == 'E') then
      var signed := i + 1 < |s| && (s[i + 1] == '+' || s[i + 1] == '-');
      var j := if signed then i + 2 else i + 1;
      if RunEnd(s, j, 10) > j
      then ExponentPart(signed && s[i + 1] == '-', Value(s[j..RunEnd(s, j, 10)], 10), RunEnd(s, j, 10))
      else ExponentPart(false, 0, i)
    else ExponentPart(false, 0, i)
  }

  /** A decimal literal at position i: the digits before and after the point, the power of ten that
      scales them as an integer, and where it ends. */
  datatype Literal = Literal(integer: string, fraction: string, exponent: ExponentPart) {
    function All(): string {
      integer + fraction
    }
  }

  function ScanLiteral(s: string, i: nat): (lit: Literal)
    requires i <= |s|
    ensures lit.exponent.end <= |s|
  {
    var j := RunEnd(s, i, 10);
    Literal(s[i..j], s[FractionStart(s, j)..FractionEnd(s, j)], ScanExponent(s, FractionEnd(s, j)))
  }

  const MAX_EXPONENT: nat := 0x7fff_ffff / 2

  /** The exponent part as the conversion reads it: its magnitude saturates. */
  function ClampedExponent(x: ExponentPart): int {
    var m := Min(x.magnitude, MAX_EXPONENT);
    if x.negative then -m else m
  }

  /** The exponent part as it is written. */
  function ExactExponent(x: ExponentPart): int {
    if x.negative then 0 - x.magnitude else x.magnitude
  }

  /** What is owed for a decimal literal: its simplified digits and exponent, or no digits for a zero. */
  predicate IsSimplified(lit: Literal, digits: string, exponent: int) {
    var d := Significant(lit.All());
    && digits == KeptDigits(d)
    && (|| exponent == ClampedExponent(lit.exponent) - |lit.fraction| + ExponentShift(d)
        || (d == [] && exponent == 0))
  }

  /** The integer part reads as an octal number when the flag is set. */
  predicate LooksOctal(integer: string) {
    && integer != [] && integer[0] == '0'
    && !AllZero(integer)
    && forall k :: 0 <= k < |integer| ==> integer[k] < '8'
  }

  /** Digits that do not fit in the buffer are dropped from an octal number too, but only from one that is
      beyond every double, and it stays so. */
  ghost predicate IsOctal(integer: string, m: nat, e: nat) {
    exists n: nat :: IsRounding(n, m, e) && EquallyLarge(n, Value(integer, 8))
  }

  ghost predicate EquallyLarge(n: int, exact: int) {
    n == exact || (n >= Pow(2, 1024) && exact >= Pow(2, 1024))
  }

  /** What may follow an implicit octal literal that ends at position j. */
  predicate OctalAllowed(space: char -> bool, s: string, j: nat, flags: Flags)
    requires j <= |s|
  {
    if j < |s| && s[j] == '.' then flags.trailingJunk
    else if j < |s| && (s[j] == 'e' || s[j] == 'E') then false
    else flags.trailingJunk || OnlySpace(space, s, j)
  }

  /** What is owed for the unsigned decimal or implicit octal literal at position i. */
  ghost predicate CorrectDecimal(r: Outcome, space: char -> bool, s: string, i: nat, flags: Flags, negative: bool)
    requires i <= |s|
  {
    var lit, j := ScanLiteral(s, i), RunEnd(s, i, 10);
    if flags.implicitOctal && LooksOctal(lit.integer) then
      if OctalAllowed(space, s, j, flags) then r.Power? && r.negative == negative && IsOctal(lit.integer, r.number, r.exponent)
      else r == NotANumber
    else CorrectLiteral(r, space, s, lit, flags, negative)
  }

  predicate CorrectLiteral(r: Outcome, space: char -> bool, s: string, lit: Literal, flags: Flags, negative: bool)
    requires lit.exponent.end <= |s|
  {
    if lit.All() != [] && (flags.trailingJunk || OnlySpace(space, s, lit.exponent.end)) then
      r.Decimal? && r.negative == negative && IsSimplified(lit, r.digits, r.tens)
    else r == NotANumber
  }

  function AsOutcome(r: PowerOfTwoRadix.Result): Outcome {
    match r
    case Junk => NotANumber
    case Binary(negative, number, exponent) => Power(negative, number, exponent)
  }

  /** What is owed for a literal with a radix prefix whose digits start at position i. */
  ghost predicate CorrectPrefixed(r: Outcome, space: char -> bool, s: string, i: nat, radix: nat, flags: Flags, signed: bool)
    requires i <= |s|
  {
    if i == |s| || !IsDigit(s[i], radix) || signed then r == NotANumber
    else exists p :: r == AsOutcome(p) && PowerOfTwoRadix.Correct(p, space, s, i, radix, false, flags.trailingJunk)
  }

  predicate StartsInfinity(s: string, i: nat) {
    i + 8 <= |s| && s[i..i + 8] == "Infinity"
  }

  /** The radix that a prefix at position i announces, or 10. */
  function PrefixRadix(s: string, i: nat, flags: Flags): nat {
    if i + 1 < |s| && s[i] == '0' then
      if flags.hex && (s[i + 1] == 'x' || s[i + 1] == 'X') then 16
      else if flags.octal && (s[i + 1] == 'o' || s[i + 1] == 'O') then 8
      else if flags.binary && (s[i + 1] == 'b' || s[i + 1] == 'B') then 2
      else 10
    else 10
  }

  /** What kind of number a string holds, and where its digits start. */
  datatype Form =
    | Nothing
    | NoNumber
    | Infinity(end: nat, infNegative: bool)
    | Prefixed(start: nat, radix: nat, signed: bool)
    | Unprefixed(start: nat, negative: bool)

  predicate Within(form: Form, s: string) {
    match form
    case Infinity(end, _) => end <= |s|
    case Prefixed(start, _, _) => start <= |s|
    case Unprefixed(start, _) => start < |s|
    case _ => true
  }

  function UnsignedForm(s: string, i: nat, flags: Flags, signed: bool, negative: bool): (form: Form)
    requires i <= |s|
    ensures Within(form, s)
  {
    if i == |s| then NoNumber
    else if s[i] == 'I' then if StartsInfinity(s, i) then Infinity(i + 8, negative) else NoNumber
    else if PrefixRadix(s, i, flags) != 10 then Prefixed(i + 2, PrefixRadix(s, i, flags), signed)
    else Unprefixed(i, negative)
  }

  function FormOf(space: char -> bool, s: string, flags: Flags): (form: Form)
    ensures Within(form, s)
  {
    var i := SkipSpace(space, s, 0);
    if i == |s| then Nothing
    else if s[i] == '+' || s[i] == '-' then UnsignedForm(s, i + 1, flags, true, s[i] == '-')
    else UnsignedForm(s, i, flags, false, false)
  }

  ghost predicate CorrectForm(r: Outcome, space: char -> bool, s: string, form: Form, flags: Flags)
    requires Within(form, s)
  {
    match form
    case Nothing => r == Empty
    case NoNumber => r == NotANumber
    case Infinity(end, negative) =>
      if flags.trailingJunk || OnlySpace(space, s, end) then r == Infinite(negative) else r == NotANumber
    case Prefixed(start, radix, signed) => CorrectPrefixed(r, space, s, start, radix, flags, signed)
    case Unprefixed(start, negative) => CorrectDecimal(r, space, s, start, flags, negative)
  }

  /** What the conversion owes its caller. */
  ghost predicate Correct(r: Outcome, space: char -> bool, s: string, flags: Flags) {
    CorrectForm(r, space, s, FormOf(space, s, flags), flags)
  }

  // ----- the buffer -----

  const BUFFER_SIZE: nat := MAX_SIGNIFICANT_DIGITS + 10

  /** The buffer after the significant digits d have been offered to it. */
  ghost predicate Holds(buffer: array<char>, pos: nat, dropped: bool, d: string)
    reads buffer
  {
    && buffer.Length == BUFFER_SIZE
    && pos == Min(|d|, MAX_SIGNIFICANT_DIGITS)
    && buffer[..pos] == d[..pos]
    && (dropped <==> !AllZero(d[pos..]))
  }

  method Offer(buffer: array<char>, pos: nat, dropped: bool, c: char, ghost d: string) returns (pos': nat, dropped': bool)
    requires Holds(buffer, pos, dropped, d)
    modifies buffer
    ensures Holds(buffer, pos', dropped', d + [c])
  {
    pos', dropped' := pos, dropped;
    if pos < MAX_SIGNIFICANT_DIGITS {
      buffer[pos] := c;
      pos' := pos + 1;
      assert d[..pos] + [c] == (d + [c])[..pos'];
    } else {
      dropped' := dropped || c != '0';
      assert (d + [c])[pos..] == d[pos..] + [c];
      AllZeroSnoc(d[pos..] + [c], 0, |d| - pos);
      assert (d[pos..] + [c])[..|d| - pos] == d[pos..];
      assert (d[pos..] + [c])[..|d| - pos + 1] == d[pos..] + [c];
    }
  }

  /** Copies the significant digits of the integer part. */
  method ScanInteger(s: string, start: nat, buffer: array<char>, octalAllowed: bool)
      returns (end: nat, pos: nat, insignificant: nat, dropped: bool, octal: bool)
    requires start <= |s| && buffer.Length == BUFFER_SIZE
    modifies buffer
    ensures end == RunEnd(s, start, 10)
    ensures Holds(buffer, pos, dropped, s[start..end])
    ensures insignificant == |s[start..end]| - pos
    ensures octal <==> octalAllowed && forall k :: start <= k < end ==> s[k] < '8'
  {
    end, pos, insignificant, dropped, octal := start, 0, 0, false, octalAllowed;
    while end < |s| && '0' <= s[end] <= '9'
      invariant start <= end <= |s|
      invariant forall k :: start <= k < end ==> IsDigit(s[k], 10)
      invariant Holds(buffer, pos, dropped, s[start..end])
      invariant insignificant == end - start - pos
      invariant octal <==> octalAllowed && forall k :: start <= k < end ==> s[k] < '8'
    {
      assert s[start..end + 1] == s[start..end] + [s[end]];
      if pos >= MAX_SIGNIFICANT_DIGITS {
        insignificant := insignificant + 1;
      }
      pos, dropped := Offer(buffer, pos, dropped, s[end], s[start..end]);
      octal := octal && s[end] < '8';
      end := end + 1;
    }
    RunEndUnique(s, start, end, 10);
  }

  /** Copies the significant digits of the fraction; each one that is kept lowers the exponent. */
  method ScanFraction(s: string, start: nat, buffer: array<char>, pos0: nat, dropped0: bool, ghost d: string)
      returns (end: nat, pos: nat, exponent: int, dropped: bool)
    requires start <= |s| && Holds(buffer, pos0, dropped0, d)
    modifies buffer
    ensures end == RunEnd(s, start, 10)
    ensures Holds(buffer, pos, dropped, d + s[start..end])
    ensures exponent == pos0 - pos
  {
    end, pos, exponent, dropped := start, pos0, 0, dropped0;
    assert d + s[start..end] == d;
    while end < |s| && '0' <= s[end] <= '9'
      invariant start <= end <= |s|
      invariant forall k :: start <= k < end ==> IsDigit(s[k], 10)
      invariant Holds(buffer, pos, dropped, d + s[start..end])
      invariant exponent == pos0 - pos
    {
      assert d + s[start..end + 1] == (d + s[start..end]) + [s[end]];
      if pos < MAX_SIGNIFICANT_DIGITS {
        exponent := exponent - 1;
      }
      pos, dropped := Offer(buffer, pos, dropped, s[end], d + s[start..end]);
      end := end + 1;
    }
    RunEndUnique(s, start, end, 10);
  }

  /** The test for overflow is exact. */
  lemma {:induction false} SaturatedStep(v: nat, digit: nat)
    requires digit < 10
    ensures var num := Min(v, MAX_EXPONENT);
            Min(v * 10 + digit, MAX_EXPONENT) ==
            if num >= MAX_EXPONENT / 10 && !(num == MAX_EXPONENT / 10 && digit <= MAX_EXPONENT % 10) then MAX_EXPONENT
            else num * 10 + digit
  {
  }

  /** Reads the digits of the exponent part with saturation. */
  method ScanExponentDigits(s: string, start: nat) returns (end: nat, num: nat)
    requires start < |s| && IsDigit(s[start], 10)
    ensures end == RunEnd(s, start, 10)
    ensures num == Min(Value(s[start..end], 10), MAX_EXPONENT)
  {
    end, num := start, 0;
    while end < |s| && '0' <= s[end] <= '9'
      invariant start <= end <= |s|
      invariant forall k :: start <= k < end ==> IsDigit(s[k], 10)
      invariant num == Min(Value(s[start..end], 10), MAX_EXPONENT)
    {
      ValueOfNext(s, start, end, 10);
      var digit := s[end] as int - '0' as int;
      SaturatedStep(Value(s[start..end], 10), digit);
      if num >= MAX_EXPONENT / 10 && !(num == MAX_EXPONENT / 10 && digit <= MAX_EXPONENT % 10) {
        num := MAX_EXPONENT;
      } else {
        num := num * 10 + digit;
      }
      end := end + 1;
    }
    RunEndUnique(s, start, end, 10);
  }

  // ----- the conversion -----

  /** The fraction behind the point at position dot, whose leading zeros count in the exponent when no
      significant digit precedes them. */
  method ScanPoint(s: string, dot: nat, buffer: array<char>, pos0: nat, dropped0: bool, ghost d0: string)
      returns (allZero: bool, end: nat, pos: nat, exponent: int, dropped: bool, ghost z: nat)
    requires dot + 1 < |s| && s[dot] == '.'
    requires Holds(buffer, pos0, dropped0, d0)
    modifies buffer
    ensures end == FractionEnd(s, dot) && dot + 1 + z <= end
    ensures AllZero(s[dot + 1..dot + 1 + z])
    ensures allZero ==> d0 == [] && end == |s| && dot + 1 + z == end
    ensures !allZero ==> Holds(buffer, pos, dropped, d0 + s[dot + 1 + z..end])
    ensures !allZero ==> if d0 != [] then z == 0 else dot + 1 + z < |s| && s[dot + 1 + z] != '0'
    ensures !allZero ==> exponent == pos0 - pos - z
  {
    allZero, end, pos, exponent, dropped, z := false, dot + 1, pos0, 0, dropped0, 0;
    if pos0 == 0 {
      allZero, end, exponent := SkipFractionZeros(s, dot + 1);
      z := end - dot - 1;
      if allZero {
        return;
      }
    }
    var kept;
    end, pos, kept, dropped := ScanFraction(s, end, buffer, pos0, dropped0, d0);
    exponent := exponent + kept;
  }

  /** Moves the leading zeros of a fraction without significant digits before it into the exponent. */
  method SkipFractionZeros(s: string, start: nat) returns (allZero: bool, end: nat, exponent: int)
    requires start < |s|
    ensures start <= end <= |s| && AllZero(s[start..end])
    ensures allZero <==> end == |s|
    ensures end < |s| ==> s[end] != '0' && exponent == start - end
    ensures RunEnd(s, start, 10) == RunEnd(s, end, 10)
  {
    allZero, end, exponent := false, start, 0;
    while s[end] == '0'
      invariant start <= end < |s|
      invariant AllZero(s[start..end])
      invariant exponent == start - end
      decreases |s| - end
    {
      AllZeroSnoc(s, start, end);
      end := end + 1;
      if end == |s| {
        SkipZeros(s, start, end, 10);
        allZero := true;
        return;
      }
      exponent := exponent - 1;
    }
    SkipZeros(s, start, end, 10);
  }

  /** The exponent part at position i, which holds an e. */
  method ScanExponentPart(s: string, i: nat) returns (present: bool, exponent: int, end: nat)
    requires i < |s| && (s[i] == 'e' || s[i] == 'E')
    ensures end == ScanExponent(s, i).end
    ensures present <==> end > i
    ensures exponent == ClampedExponent(ScanExponent(s, i))
  {
    var current := i + 1;
    present, exponent, end := false, 0, i;
    if current == |s| {
      return;
    }
    var sign := '+';
    if s[current] == '+' || s[current] == '-' {
      sign := s[current];
      current := current + 1;
      if current == |s| {
        return;
      }
    }
    if s[current] < '0' || s[current] > '9' {
      return;
    }
    var num;
    end, num := ScanExponentDigits(s, current);
    present, exponent := true, num;
    if sign == '-' {
      exponent := -exponent;
    }
  }

  /** Appends the sticky digit and ends the string in the buffer. */
  method FinishBuffer(buffer: array<char>, pos: nat, dropped: bool, ghost d: string) returns (digits: string, shift: int)
    requires Holds(buffer, pos, dropped, d)
    modifies buffer
    ensures digits == KeptDigits(d)
    ensures |d| - pos + shift == ExponentShift(d)
  {
    var end := pos;
    shift := 0;
    if dropped {
      buffer[end] := '1';
      end := end + 1;
      shift := -1;
      assert buffer[..end] == d[..pos] + "1";
    }
    buffer[end] := '\0';
    digits := buffer[..end];
  }

  lemma {:induction false} OctalBeyondEveryDouble()
    ensures Pow(2, 1024) <= Pow(8, 771)
  {
    assert Pow(2, 3) == 8;
    PowOfPower(2, 3, 771);
    PowMono(2, 1024, 2313);
  }

  lemma {:induction false} OctalAtLeast(d: string, n: nat)
    requires |d| > n && d[0] != '0' && AllDigits(d, 8)
    ensures Value(d, 8) >= Pow(8, n)
  {
    LeadingDigit(d, 8);
    PowMono(8, n, |d| - 1);
  }

  lemma {:induction false} LongOctal(d: string)
    requires |d| >= MAX_SIGNIFICANT_DIGITS && d[0] != '0' && AllDigits(d, 8)
    ensures Value(d, 8) >= Pow(2, 1024)
  {
    OctalAtLeast(d, 771);
    OctalBeyondEveryDouble();
  }

  lemma {:induction false} OctalDigits(integer: string, zeros: string, d: string, kept: string)
    requires AllZero(zeros) && integer == zeros + d
    requires d != [] && d[0] != '0' && AllDigits(d, 8)
    requires kept == d[..Min(|d|, MAX_SIGNIFICANT_DIGITS)]
    ensures EquallyLarge(Value(kept, 8), Value(integer, 8))
  {
    DropLeadingZeros(zeros, d, 8);
    if |d| > MAX_SIGNIFICANT_DIGITS {
      LongOctal(d);
      LongOctal(kept);
    } else {
      assert kept == d;
    }
  }

  /** Reparses the digits in the buffer as an octal number. */
  method FinishOctal(space: char -> bool, kept: string, flags: Flags, negative: bool) returns (r: Outcome)
    requires kept != [] && AllDigits(kept, 8)
    ensures r.Power? && r.negative == negative && IsRounding(Value(kept, 8), r.number, r.exponent)
  {
    assert Pow(2, 3) == 8;
    RunEndUnique(kept, 0, |kept|, 8);
    assert kept[0..|kept|] == kept;
    var p := PowerOfTwoRadix.StringToIntDouble(3, space, kept, 0, negative, flags.trailingJunk);
    r := AsOutcome(p);
  }

  /** The leading zeros before and after the point, then the significant digits. */
  lemma {:induction false} SignificantParts(a0: string, a1: string, b0: string, b1: string)
    requires AllZero(a0) && AllZero(b0)
    requires if a1 != [] then a1[0] != '0' && b0 == [] else b1 != [] ==> b1[0] != '0'
    ensures Significant((a0 + a1) + (b0 + b1)) == a1 + b1
  {
    assert (a0 + a1) + (b0 + b1) == (a0 + b0) + (a1 + b1);
    SignificantOf(a0 + b0, a1 + b1);
  }

  /** The literal whose integer part ends at j and whose fraction lies between f and e has the significant
      digits d, of which z zeros of the fraction are no part. */
  ghost predicate HasMantissa(s: string, i: nat, d: string, f: nat, e: nat)
    requires i <= |s|
  {
    var j, lit := RunEnd(s, i, 10), ScanLiteral(s, i);
    && f == FractionStart(s, j) && e == FractionEnd(s, j)
    && d == Significant(lit.All())
    && lit.fraction == s[f..e]
    && lit.exponent == ScanExponent(s, e)
    && (lit.All() == [] <==> j == i && f == e)
  }

  lemma {:induction false} SplitMantissa(s: string, i: nat, first: nat, j: nat, f: nat, e: nat, z: nat)
    requires i <= first <= j <= |s| && j == RunEnd(s, i, 10)
    requires AllZero(s[i..first]) && (first < j ==> s[first] != '0')
    requires f == FractionStart(s, j) && e == FractionEnd(s, j)
    requires f + z <= e && AllZero(s[f..f + z])
    requires if first < j then z == 0 else f + z < e ==> s[f + z] != '0'
    ensures HasMantissa(s, i, s[first..j] + s[f + z..e], f, e)
  {
    SliceSplit(s, i, first, j);
    SliceSplit(s, f, f + z, e);
    MantissaFrom(s, i, j, f, e, s[i..first], s[first..j], s[f..f + z], s[f + z..e]);
  }

  lemma {:induction false} LiteralParts(s: string, i: nat, j: nat, f: nat, e: nat) returns (lit: Literal)
    requires i <= j <= |s| && j == RunEnd(s, i, 10)
    requires f == FractionStart(s, j) && e == FractionEnd(s, j)
    ensures lit == ScanLiteral(s, i)
    ensures lit.integer == s[i..j] && lit.fraction == s[f..e] && lit.exponent == ScanExponent(s, e)
  {
    lit := ScanLiteral(s, i);
  }

  lemma {:induction false} SignificantOfParts(lit: Literal, a0: string, a1: string, b0: string, b1: string)
    requires lit.integer == a0 + a1 && lit.fraction == b0 + b1 && AllZero(a0) && AllZero(b0)
    requires if a1 != [] then a1[0] != '0' && b0 == [] else b1 != [] ==> b1[0] != '0'
    ensures Significant(lit.All()) == a1 + b1
    ensures lit.All() == [] <==> |lit.integer| == 0 && |lit.fraction| == 0
  {
    SignificantParts(a0, a1, b0, b1);
  }

  lemma {:induction false} MantissaFrom(s: string, i: nat, j: nat, f: nat, e: nat, a0: string, a1: string, b0: string, b1: string)
    requires i <= j <= |s| && j == RunEnd(s, i, 10)
    requires f == FractionStart(s, j) && e == FractionEnd(s, j)
    requires s[i..j] == a0 + a1 && s[f..e] == b0 + b1 && AllZero(a0) && AllZero(b0)
    requires if a1 != [] then a1[0] != '0' && b0 == [] else b1 != [] ==> b1[0] != '0'
    ensures HasMantissa(s, i, a1 + b1, f, e)
  {
    var lit := LiteralParts(s, i, j, f, e);
    SignificantOfParts(lit, a0, a1, b0, b1);
  }

  /** Copies the digits behind the integer part s[start..end], whose significant digits start at first. */
  method ScanMantissa(s: string, start: nat, first: nat, end: nat, buffer: array<char>, pos0: nat, dropped0: bool)
      returns (allZero: bool, x: nat, pos: nat, exponent: int, dropped: bool, ghost d: string)
    requires start <= first <= end <= |s|
    requires end == RunEnd(s, start, 10)
    requires AllZero(s[start..first]) && (first < end ==> s[first] != '0')
    requires Holds(buffer, pos0, dropped0, s[first..end])
    modifies buffer
    ensures HasMantissa(s, start, d, FractionStart(s, end), x)
    ensures allZero ==> d == [] && x == |s| && FractionStart(s, end) < x
    ensures !allZero ==> Holds(buffer, pos, dropped, d)
    ensures !allZero ==> exponent + (end - first - pos0) == |d| - (x - FractionStart(s, end)) - pos
    ensures !allZero && first == start == end ==> (exponent == 0 && pos == 0 <==> x == FractionStart(s, end))
  {
    allZero, x, pos, exponent, dropped := false, end, pos0, 0, dropped0;
    ghost var f, z := FractionStart(s, end), 0;
    d := s[first..end];
    if end < |s| && s[end] == '.' {
      if end + 1 == |s| {
        x := end + 1;
      } else {
        allZero, x, pos, exponent, dropped, z := ScanPoint(s, end, buffer, pos0, dropped0, d);
        d := d + s[end + 1 + z..x];
      }
    }
    assert d == s[first..end] + s[f + z..x];
    SplitMantissa(s, start, first, end, f, x, z);
  }

  /** The exponent part at position x and the end of the string. */
  method FinishDecimal(space: char -> bool, s: string, x: nat, buffer: array<char>, pos: nat, exponent0: int,
                       dropped: bool, flags: Flags, negative: bool, ghost d: string) returns (r: Outcome)
    requires !space('e') && !space('E')
    requires x <= |s| && Holds(buffer, pos, dropped, d)
    modifies buffer
    ensures if flags.trailingJunk || OnlySpace(space, s, ScanExponent(s, x).end)
            then && r.Decimal? && r.negative == negative && r.digits == KeptDigits(d)
                 && r.tens == ClampedExponent(ScanExponent(s, x)) + exponent0 - (|d| - pos) + ExponentShift(d)
            else r == NotANumber
  {
    var exponent := exponent0;
    if x < |s| {
      var next := x;
      if s[x] == 'e' || s[x] == 'E' {
        var present, num;
        present, num, next := ScanExponentPart(s, x);
        if !present && !flags.trailingJunk {
          return NotANumber;
        }
        exponent := exponent + num;
      }
      if !flags.trailingJunk {
        var found, _ := AdvanceToNonspace(space, s, next);
        if found {
          return NotANumber;
        }
      }
    }
    var digits, shift := FinishBuffer(buffer, pos, dropped, d);
    r := Decimal(negative, digits, exponent + shift);
  }

  /** What the mantissa tells about the literal. */
  lemma {:induction false} MantissaOf(s: string, i: nat, d: string, f: nat, x: nat)
    requires i <= |s| && HasMantissa(s, i, d, f, x)
    ensures x <= |s| && f <= x
    ensures var lit := ScanLiteral(s, i);
            && d == Significant(lit.All()) && |lit.fraction| == x - f && lit.exponent == ScanExponent(s, x)
            && (lit.All() == [] <==> RunEnd(s, i, 10) == i && f == x)
  {
  }

  /** The part of the conversion behind an integer part that is not octal. */
  method ConvertLiteral(space: char -> bool, s: string, start: nat, first: nat, end: nat, buffer: array<char>,
                        pos0: nat, insignificant: nat, dropped0: bool, flags: Flags, negative: bool) returns (r: Outcome)
    requires !space('e') && !space('E')
    requires start <= first <= end <= |s|
    requires end == RunEnd(s, start, 10)
    requires AllZero(s[start..first]) && (first < end ==> s[first] != '0')
    requires Holds(buffer, pos0, dropped0, s[first..end])
    requires insignificant == end - first - pos0
    modifies buffer
    ensures CorrectLiteral(r, space, s, ScanLiteral(s, start), flags, negative)
  {
    var leadingZero := first > start;
    var allZero, x, pos, exponent, dropped;
    ghost var d;
    allZero, x, pos, exponent, dropped, d := ScanMantissa(s, start, first, end, buffer, pos0, dropped0);
    ghost var f := FractionStart(s, end);
    MantissaOf(s, start, d, f, x);
    if allZero {
      return Decimal(negative, [], 0);
    }
    if !leadingZero && exponent == 0 && pos == 0 {
      return NotANumber;
    }
    r := FinishDecimal(space, s, x, buffer, pos, exponent + insignificant, dropped, flags, negative, d);
  }

  lemma {:induction false} WhenOctal(s: string, i: nat, first: nat, j: nat)
    requires i <= first <= j <= |s|
    requires AllZero(s[i..first]) && (first < |s| ==> s[first] != '0')
    ensures LooksOctal(s[i..j]) <==> i < first < j && forall k :: first <= k < j ==> s[k] < '8'
  {
    assert forall k :: i <= k < first ==> s[k] == s[i..first][k - i];
    assert forall k :: i <= k < j ==> s[k] == s[i..j][k - i];
    if first < j {
      assert s[i..j][first - i] != '0';
    }
  }

  /** An octal number whose digits end at position j and whose significant digits are in the buffer. */
  method ConvertOctal(space: char -> bool, s: string, i: nat, first: nat, j: nat, buffer: array<char>, pos: nat,
                      flags: Flags, negative: bool) returns (r: Outcome)
    requires i < first < j <= |s| && j == RunEnd(s, i, 10)
    requires AllZero(s[i..first]) && s[first] != '0'
    requires forall k :: first <= k < j ==> s[k] < '8'
    requires pos == Min(j - first, MAX_SIGNIFICANT_DIGITS) <= buffer.Length && buffer[..pos] == s[first..j][..pos]
    requires flags.implicitOctal && LooksOctal(s[i..j])
    ensures CorrectDecimal(r, space, s, i, flags, negative)
  {
    if j < |s| && s[j] == '.' {
      if !flags.trailingJunk {
        return NotANumber;
      }
    } else if j < |s| && (s[j] == 'e' || s[j] == 'E') {
      return NotANumber;
    } else if !flags.trailingJunk {
      var found, _ := AdvanceToNonspace(space, s, j);
      if found {
        return NotANumber;
      }
    }
    var kept := buffer[..pos];
    SliceSplit(s, i, first, j);
    OctalDigits(s[i..j], s[i..first], s[first..j], kept);
    r := FinishOctal(space, kept, flags, negative);
  }

  /** A literal without a radix prefix. */
  method ConvertDecimal(space: char -> bool, s: string, start: nat, flags: Flags, negative: bool) returns (r: Outcome)
    requires !space('e') && !space('E')
    requires start < |s|
    ensures CorrectDecimal(r, space, s, start, flags, negative)
  {
    var first := PowerOfTwoRadix.SkipLeadingZeros(s, start);
    SkipZeros(s, start, first, 10);
    if first == |s| {
      SplitMantissa(s, start, first, first, first, first, 0);
      WhenOctal(s, start, first, first);
      return Decimal(negative, [], 0);
    }
    var leadingZero := first > start;
    var buffer := new char[BUFFER_SIZE];
    var end, pos, insignificant, dropped, octal := ScanInteger(s, first, buffer, leadingZero && flags.implicitOctal);
    WhenOctal(s, start, first, end);
    if pos == 0 {
      octal := false;
    }
    if octal {
      r := ConvertOctal(space, s, start, first, end, buffer, pos, flags, negative);
    } else {
      r := ConvertLiteral(space, s, start, first, end, buffer, pos, insignificant, dropped, flags, negative);
    }
  }

  method SubStringEquals(s: string, start: nat, word: string) returns (equal: bool, current: nat)
    requires start < |s| && word != [] && s[start] == word[0]
    ensures equal <==> start + |word| <= |s| && s[start..start + |word|] == word
    ensures equal ==> current == start + |word|
  {
    current := start;
    var k := 1;
    while k < |word|
      invariant 1 <= k <= |word| && current == start + k - 1 && start + k <= |s|
      invariant s[start..start + k] == word[..k]
    {
      current := current + 1;
      if current == |s| || s[current] != word[k] {
        if start + |word| <= |s| {
          assert s[start..start + |word|][k] == s[start + k];
        }
        return false, current;
      }
      k := k + 1;
    }
    return true, current + 1;
  }

  /** A literal behind a prefix 0x, 0o or 0b that ends at position start. */
  method ConvertPrefixed(k: nat, space: char -> bool, s: string, start: nat, flags: Flags, signed: bool) returns (r: Outcome)
    requires 1 <= k <= 5 && start <= |s|
    ensures CorrectPrefixed(r, space, s, start, Pow(2, k), flags, signed)
  {
    if start == |s| || !IsDigit(s[start], Pow(2, k)) || signed {
      return NotANumber;
    }
    var p := PowerOfTwoRadix.StringToIntDouble(k, space, s, start, false, flags.trailingJunk);
    r := AsOutcome(p);
  }

  /** Everything behind the sign. */
  method ConvertUnsigned(space: char -> bool, s: string, start: nat, flags: Flags, signed: bool, negative: bool)
      returns (r: Outcome)
    requires !space('e') && !space('E')
    requires start < |s|
    ensures CorrectForm(r, space, s, UnsignedForm(s, start, flags, signed, negative), flags)
  {
    if s[start] == 'I' {
      var equal, current := SubStringEquals(s, start, "Infinity");
      if !equal {
        return NotANumber;
      }
      if !flags.trailingJunk {
        var found, _ := AdvanceToNonspace(space, s, current);
        if found {
          return NotANumber;
        }
      }
      return Infinite(negative);
    }
    if s[start] == '0' && start + 1 < |s| {
      assert Pow(2, 4) == 16 && Pow(2, 3) == 8 && Pow(2, 1) == 2;
      var c := s[start + 1];
      if flags.hex && (c == 'x' || c == 'X') {
        r := ConvertPrefixed(4, space, s, start + 2, flags, signed);
        return;
      } else if flags.octal && (c == 'o' || c == 'O') {
        r := ConvertPrefixed(3, space, s, start + 2, flags, signed);
        return;
      } else if flags.binary && (c == 'b' || c == 'B') {
        r := ConvertPrefixed(1, space, s, start + 2, flags, signed);
        return;
      }
    }
    r := ConvertDecimal(space, s, start, flags, negative);
  }

  method Convert(space: char -> bool, s: string, flags: Flags) returns (r: Outcome)
    requires !space('e') && !space('E')
    ensures Correct(r, space, s, flags)
  {
    var found, current := AdvanceToNonspace(space, s, 0);
    if !found {
      return Empty;
    }
    var signed, negative := false, false;
    if s[current] == '+' {
      current := current + 1;
      if current == |s| {
        return NotANumber;
      }
      signed := true;
    } else if s[current] == '-' {
      current := current + 1;
      if current == |s| {
        return NotANumber;
      }
      signed, negative := true, true;
    }
    r := ConvertUnsigned(space, s, current, flags, signed, negative);
  }
}
