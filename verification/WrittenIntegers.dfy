/** Integers as they are written: what parseInt owes for a string that is put together from white space, a sign,
    a prefix and digits. */
module WrittenIntegers {
  import opened Arithmetic
  import opened Digits
  import opened Rounding
  import opened Doubles
  import opened DiyFps
  import opened DecimalOrder
  import opened ParseInt
  import opened WrittenNumbers
  import CorrectRounding

  lemma {:induction false} SignInterprets(space: char -> bool, s: string, radix: int, blanks: string, sign: string, text: string, rest: string)
    requires PlainSpace(space) && AllSpace(space, blanks) && IsSign(sign)
    requires text != "" && IsDigit(text[0], 36)
    requires s == blanks + (sign + text) + rest
    ensures var i := |blanks| + |sign|;
            && i + |text| <= |s| && StandsAt(s, i, text) && s[i + |text|..] == rest
            && Interpret(space, s, radix) == InterpretUnsigned(s, i, radix, sign == "-")
  {
    NumberStarts(space, s, blanks, sign, text, rest);
  }

  lemma {:induction false} SignPosition(space: char -> bool, s: string, radix: int, blanks: string, sign: string,
                                        text: string, rest: string) returns (i: nat)
    requires PlainSpace(space) && AllSpace(space, blanks) && IsSign(sign)
    requires text != "" && IsDigit(text[0], 36)
    requires s == blanks + (sign + text) + rest
    ensures i + |text| <= |s| && StandsAt(s, i, text) && s[i + |text|..] == rest
    ensures Interpret(space, s, radix) == InterpretUnsigned(s, i, radix, sign == "-")
  {
    SignInterprets(space, s, radix, blanks, sign, text, rest);
    i := |blanks| + |sign|;
  }

  lemma {:induction false} RestEnds(s: string, j: nat, rest: string, radix: int)
    requires j <= |s| && s[j..] == rest && (rest != "" ==> !IsDigit(rest[0], radix))
    ensures Ends(s, j, radix)
  {
    if j < |s| {
      assert s[j] == rest[0];
    }
  }

  lemma {:induction false} DigitsInterpreted(s: string, i: nat, d: string, radix: int, negative: bool)
    requires i <= |s| && 2 <= radix <= 36 && d != "" && AllDigits(d, radix)
    requires StandsAt(s, i, d) && Ends(s, i + |d|, radix)
    ensures InterpretDigits(s, i, radix, negative) == Integer(negative, radix, d)
  {
    RunAt(s, i, d, radix);
  }

  /** The digits do not begin with a hexadecimal prefix. */
  predicate Plain(d: string, rest: string) {
    && (|d| > 1 && d[0] == '0' ==> d[1] != 'x' && d[1] != 'X')
    && (d == "0" && rest != "" ==> rest[0] != 'x' && rest[0] != 'X')
  }

  lemma {:induction false} NotPrefixed(s: string, i: nat, d: string, rest: string, radix: int)
    requires i + |d| <= |s| && StandsAt(s, i, d) && s[i + |d|..] == rest && d != ""
    requires radix == 0 || radix == 16 ==> Plain(d, rest)
    ensures !Prefixed(s, i, radix)
  {
    CharAt(s, i, d, 0);
    if |d| > 1 {
      CharAt(s, i, d, 1);
    } else if rest != "" {
      assert s[i + 1] == rest[0];
      assert d[0] == '0' ==> d == "0";
    }
  }

  lemma {:induction false} RadixDetected(s: string, i: nat, radix: int, actual: int, negative: bool)
    requires i <= |s| && !Prefixed(s, i, radix)
    requires radix == actual != 0 || (radix == 0 && actual == 10)
    ensures InterpretUnsigned(s, i, radix, negative) == InterpretDigits(s, i, actual, negative)
  {
  }

  lemma {:induction false} UnprefixedDigits(s: string, i: nat, d: string, rest: string, radix: int, actual: int, negative: bool)
    requires 2 <= actual <= 36 && (radix == actual || (radix == 0 && actual == 10))
    requires d != "" && AllDigits(d, actual) && (rest != "" ==> !IsDigit(rest[0], actual))
    requires radix == 0 || radix == 16 ==> Plain(d, rest)
    requires i + |d| <= |s| && StandsAt(s, i, d) && s[i + |d|..] == rest
    ensures InterpretUnsigned(s, i, radix, negative) == Integer(negative, actual, d)
  {
    RestEnds(s, i + |d|, rest, actual);
    NotPrefixed(s, i, d, rest, radix);
    RadixDetected(s, i, radix, actual, negative);
    DigitsInterpreted(s, i, d, actual, negative);
  }

  /** The digits of any radix from 2 to 36 are interpreted in that radix, and those without a radix in radix 10;
      the sign alone decides whether the integer is negative. */
  lemma {:induction false} IntegerInterpreted(space: char -> bool, s: string, blanks: string, sign: string,
                                              d: string, rest: string, radix: int, actual: int)
    requires PlainSpace(space) && AllSpace(space, blanks) && IsSign(sign)
    requires 2 <= actual <= 36 && (radix == actual || (radix == 0 && actual == 10))
    requires d != "" && AllDigits(d, actual) && (rest != "" ==> !IsDigit(rest[0], actual))
    requires radix == 0 || radix == 16 ==> Plain(d, rest)
    requires s == blanks + (sign + d) + rest
    ensures Interpret(space, s, radix) == Integer(sign == "-", actual, d)
  {
    DigitsOfRadix(d[0], actual);
    var i := SignPosition(space, s, radix, blanks, sign, d, rest);
    UnprefixedDigits(s, i, d, rest, radix, actual, sign == "-");
  }

  lemma {:induction false} PrefixedDigits(s: string, i: nat, c: char, d: string, rest: string, radix: int, negative: bool)
    requires (radix == 0 || radix == 16) && (c == 'x' || c == 'X')
    requires d != "" && AllDigits(d, 16) && (rest != "" ==> !IsDigit(rest[0], 16))
    requires StandsAt(s, i, ['0', c] + d) && i + 2 + |d| <= |s| && s[i + 2 + |d|..] == rest
    ensures InterpretUnsigned(s, i, radix, negative) == Integer(negative, 16, d)
  {
    AtParts(s, i, ['0', c], d);
    CharAt(s, i, ['0', c] + d, 0);
    CharAt(s, i, ['0', c] + d, 1);
    RestEnds(s, i + 2 + |d|, rest, 16);
    DigitsInterpreted(s, i + 2, d, 16, negative);
  }

  /** Behind 0x or 0X the digits are hexadecimal, with radix 16 and without a radix. */
  lemma {:induction false} PrefixInterpreted(space: char -> bool, s: string, blanks: string, sign: string,
                                             c: char, d: string, rest: string, radix: int)
    requires PlainSpace(space) && AllSpace(space, blanks) && IsSign(sign)
    requires (radix == 0 || radix == 16) && (c == 'x' || c == 'X')
    requires d != "" && AllDigits(d, 16) && (rest != "" ==> !IsDigit(rest[0], 16))
    requires s == blanks + (sign + (['0', c] + d)) + rest
    ensures Interpret(space, s, radix) == Integer(sign == "-", 16, d)
  {
    var text := ['0', c] + d;
    assert text[0] == '0';
    var i := SignPosition(space, s, radix, blanks, sign, text, rest);
    PrefixedDigits(s, i, c, d, rest, radix, sign == "-");
  }

  /** There is no number in a radix out of range. */
  lemma {:induction false} RadixOutOfRange(space: char -> bool, s: string, radix: int)
    requires radix < 0 || radix == 1 || radix > 36
    ensures Interpret(space, s, radix) == NoNumber
  {
  }

  /** What parseInt hands on for the digits d of the given radix: the sign as written, and the double that the
      integer rounds to, or in a radix for which ECMA-262 allows an approximation the integer itself as long as
      the machine's rounding leaves it alone. */
  lemma {:induction false} IntegerRounds(r: Outcome, rnd: int -> int, negative: bool, radix: nat, d: string, x: Pattern)
    requires Renders(r, Integer(negative, radix, d), rnd)
    ensures r != NotANumber && r.negative == negative
    ensures r.Power? && IsEncoding(x, r.number, r.exponent) ==> RoundsTo(Value(d, radix), 0, x)
    ensures r.Decimal? ==> radix == 10 && (RoundsTo(Value(r.digits, 10), 0, x) <==> RoundsTo(Value(d, radix), 0, x))
    ensures r.Accumulated? ==> radix !in {2, 4, 8, 10, 16, 32} && (FixesUpTo(rnd, Value(d, radix)) ==> r.v == Value(d, radix))
  {
    match r
    case Power(_, m, e) =>
      if IsEncoding(x, m, e) {
        CorrectRounding.RoundedIntegerIsDouble(Value(d, radix), m, e, x);
      }
    case Decimal(_, digits) =>
      CorrectRounding.ParsedDecimalRounds(r, rnd, Value(d, 10), x);
    case _ =>
  }
}
